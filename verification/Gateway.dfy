/** The gateway connection: the HTTP upgrade and the frames after it, read from a stream that arrives in pieces. */
module Gateway {
  import opened Text
  import opened WebSocket

  // ---------- The frames of a buffer ----------

  /** Stuck: a declared length that the 32-bit arithmetic of the receiver cannot handle; not modelled further. */
  datatype Status = Open | Closed | Stuck

  datatype Drained = Drained(frames: seq<Frame>, rest: Bytes, status: Status)

  /** All complete frames at the head of the buffer, up to the first close frame. */
  function Drain(buffer: Bytes): Drained
    decreases |buffer|
  {
    match ParseFrame(buffer)
    case NeedMore => Drained([], buffer, Open)
    case TooLong => Drained([], [], Stuck)
    case Got(frame, used) =>
      if frame.opcode == OP_CLOSE then Drained([frame], [], Closed)
      else
        var d := Drain(buffer[used..]);
        d.(frames := [frame] + d.frames)
  }

  lemma {:induction false} DrainStep(buffer: Bytes)
    requires ParseFrame(buffer).Got? && ParseFrame(buffer).frame.opcode != OP_CLOSE
    ensures var d := Drain(buffer[ParseFrame(buffer).used..]);
            Drain(buffer) == d.(frames := [ParseFrame(buffer).frame] + d.frames)
  {}

  /** Draining early and again when more has arrived finds the same frames as draining once. */
  lemma {:induction false} DrainAppend(buffer: Bytes, more: Bytes)
    ensures var d := Drain(buffer);
            Drain(buffer + more) ==
            if d.status != Open then d
            else var e := Drain(d.rest + more); e.(frames := d.frames + e.frames)
    decreases |buffer|
  {
    match ParseFrame(buffer) {
      case NeedMore =>
        var e := Drain(buffer + more);
        assert [] + e.frames == e.frames;
      case TooLong =>
        ParseStable(buffer, more);
      case Got(frame, used) =>
        ParseStable(buffer, more);
        assert (buffer + more)[used..] == buffer[used..] + more;
        if frame.opcode != OP_CLOSE {
          DrainStep(buffer);
          DrainStep(buffer + more);
          DrainAppend(buffer[used..], more);
          var d := Drain(buffer[used..]);
          if d.status == Open {
            AppendAssociative([frame], d.frames, Drain(d.rest + more).frames);
          }
        }
    }
  }

  function WireAll(ws: seq<Wire>): Bytes
    requires forall i :: 0 <= i < |ws| ==> ValidWire(ws[i])
  {
    if ws == [] then [] else WireBytes(ws[0]) + WireAll(ws[1..])
  }

  function Meanings(ws: seq<Wire>): (r: seq<Frame>)
    ensures |r| == |ws| && forall i :: 0 <= i < |r| ==> r[i] == Meaning(ws[i])
  {
    seq(|ws|, i requires 0 <= i < |ws| => Meaning(ws[i]))
  }

  /** The frames before the first close frame, and that one. */
  function UpToClose(frames: seq<Frame>): seq<Frame> {
    if frames == [] then []
    else if frames[0].opcode == OP_CLOSE then [frames[0]]
    else [frames[0]] + UpToClose(frames[1..])
  }

  ghost predicate HasClose(frames: seq<Frame>) {
    exists i :: 0 <= i < |frames| && frames[i].opcode == OP_CLOSE
  }

  /** The beginning of the frames that ends at the first close frame, or all of them when there is none. */
  lemma {:induction false} UpToCloseMeans(frames: seq<Frame>)
    ensures var n := |UpToClose(frames)|;
            && n <= |frames| && UpToClose(frames) == frames[..n]
            && (forall i :: 0 <= i < n - 1 ==> frames[i].opcode != 0x8)
            && (n < |frames| ==> n > 0 && frames[n - 1].opcode == 0x8)
            && (HasClose(frames) <==> n > 0 && frames[n - 1].opcode == 0x8)
  {
    if frames == [] {
    } else {
      assert frames == [frames[0]] + frames[1..];
      HasCloseCons(frames[0], frames[1..]);
      UpToCloseMeans(frames[1..]);
    }
  }

  lemma DrainCons(w: Wire, tail: Bytes)
    requires ValidWire(w) && Receivable(w)
    ensures Drain(WireBytes(w) + tail) ==
            if Meaning(w).opcode == OP_CLOSE then Drained([Meaning(w)], [], Closed)
            else Drain(tail).(frames := [Meaning(w)] + Drain(tail).frames)
  {
    ParseInvertsWire(w, tail);
    assert (WireBytes(w) + tail)[|WireBytes(w)|..] == tail;
    if Meaning(w).opcode != OP_CLOSE {
      DrainStep(WireBytes(w) + tail);
    }
  }

  lemma {:induction false} DrainInvertsWire(ws: seq<Wire>)
    requires forall i :: 0 <= i < |ws| ==> ValidWire(ws[i]) && Receivable(ws[i])
    ensures Drain(WireAll(ws)) ==
            Drained(UpToClose(Meanings(ws)), [], if HasClose(Meanings(ws)) then Closed else Open)
  {
    if ws == [] {
    } else {
      DrainCons(ws[0], WireAll(ws[1..]));
      DrainInvertsWire(ws[1..]);
      MeaningsCons(ws[0], ws[1..]);
      HasCloseCons(Meaning(ws[0]), Meanings(ws[1..]));
      assert ws == [ws[0]] + ws[1..];
    }
  }

  lemma MeaningsCons(w: Wire, rest: seq<Wire>)
    ensures Meanings([w] + rest) == [Meaning(w)] + Meanings(rest)
  {}

  lemma HasCloseCons(f: Frame, rest: seq<Frame>)
    ensures HasClose([f] + rest) <==> f.opcode == OP_CLOSE || HasClose(rest)
    ensures UpToClose([f] + rest) == [f] + if f.opcode == OP_CLOSE then [] else UpToClose(rest)
  {
    var all := [f] + rest;
    assert all[0] == f && all[1..] == rest;
    if HasClose(rest) {
      var i :| 0 <= i < |rest| && rest[i].opcode == OP_CLOSE;
      assert all[i + 1].opcode == OP_CLOSE;
    }
  }

  // ---------- The connection as a state machine ----------

  datatype Connection = Connection(buffer: Bytes, upgraded: bool, status: Status, log: seq<Frame>)

  const CONNECTED := Connection([], false, Open, [])

  const HEADER_END: Bytes := [13, 10, 13, 10]
  const SWITCHING: Bytes := [0x31, 0x30, 0x31]

  /** Index of the first occurrence of pattern in s, or -1. */
  function Find(s: Bytes, pattern: Bytes): (i: int)
    ensures -1 <= i && (i >= 0 ==> i + |pattern| <= |s|)
  {
    if |s| < |pattern| then -1
    else if s[..|pattern|] == pattern then 0
    else if s == [] then -1
    else
      var i := Find(s[1..], pattern);
      if i == -1 then -1 else i + 1
  }

  lemma {:induction false} FindStable(s: Bytes, pattern: Bytes, more: Bytes)
    requires Find(s, pattern) >= 0
    ensures Find(s + more, pattern) == Find(s, pattern)
  {
    assert (s + more)[..|pattern|] == s[..|pattern|];
    if s[..|pattern|] != pattern {
      assert (s + more)[1..] == s[1..] + more;
      FindStable(s[1..], pattern, more);
    }
  }

  ghost predicate OccursAt(s: Bytes, pattern: Bytes, i: nat) {
    i + |pattern| <= |s| && s[i..i + |pattern|] == pattern
  }

  /** Find gives the first occurrence, and -1 only if there is none. */
  lemma {:induction false} FindMeans(s: Bytes, pattern: Bytes)
    ensures Find(s, pattern) >= 0 ==> OccursAt(s, pattern, Find(s, pattern))
    ensures forall j: nat :: OccursAt(s, pattern, j) ==> 0 <= Find(s, pattern) <= j
  {
    if |s| >= |pattern| && s[..|pattern|] != pattern {
      FindMeans(s[1..], pattern);
      forall j: nat | OccursAt(s, pattern, j) ensures 0 <= Find(s, pattern) <= j {
        assert j > 0;
        OccursLater(s, pattern, j - 1);
      }
      if Find(s[1..], pattern) >= 0 {
        OccursLater(s, pattern, Find(s[1..], pattern));
      }
    }
  }

  lemma OccursLater(s: Bytes, pattern: Bytes, j: nat)
    requires s != []
    ensures OccursAt(s, pattern, j + 1) <==> OccursAt(s[1..], pattern, j)
  {
    if j + 1 + |pattern| <= |s| {
      assert s[j + 1..j + 1 + |pattern|] == s[1..][j..j + |pattern|];
    }
  }

  /** The header ends where the first empty line begins. */
  ghost predicate IsHeader(header: Bytes) {
    forall i: nat :: OccursAt(header + [13, 10, 13, 10], [13, 10, 13, 10], i) ==> i >= |header|
  }

  /** Does the header say "101"? */
  ghost predicate Accepts(header: Bytes) {
    exists i: nat :: OccursAt(header, [0x31, 0x30, 0x31], i)
  }

  lemma HeaderFound(header: Bytes)
    requires IsHeader(header)
    ensures Find(header + HEADER_END, HEADER_END) == |header|
    ensures Find(header, SWITCHING) >= 0 <==> Accepts(header)
  {
    FoundAt(header, HEADER_END);
    FoundSomewhere(header, SWITCHING);
  }

  lemma FoundAt(before: Bytes, pattern: Bytes)
    requires forall i: nat :: OccursAt(before + pattern, pattern, i) ==> i >= |before|
    ensures Find(before + pattern, pattern) == |before|
  {
    FindMeans(before + pattern, pattern);
    assert OccursAt(before + pattern, pattern, |before|);
  }

  lemma FoundSomewhere(s: Bytes, pattern: Bytes)
    ensures Find(s, pattern) >= 0 <==> exists i: nat :: OccursAt(s, pattern, i)
  {
    FindMeans(s, pattern);
    if Find(s, pattern) >= 0 {
      assert OccursAt(s, pattern, Find(s, pattern));
    }
  }

  function AfterDrain(d: Drained, log: seq<Frame>): Connection {
    Connection(d.rest, d.status != Closed, d.status, log + d.frames)
  }

  /** What the connection makes of the bytes it holds. */
  function Process(c: Connection): Connection {
    if c.upgraded then AfterDrain(Drain(c.buffer), c.log)
    else
      var headerEnd := Find(c.buffer, HEADER_END);
      if headerEnd == -1 then c
      else AfterHeader(Find(c.buffer[..headerEnd], SWITCHING) != -1, c.buffer[headerEnd + 4..], c.log)
  }

  /** A refused upgrade ends the connection; after an accepted one the rest of the buffer holds frames. */
  function AfterHeader(accepted: bool, body: Bytes, log: seq<Frame>): Connection {
    if accepted then AfterDrain(Drain(body), log) else Connection([], false, Closed, log)
  }

  /** What a connection that was not upgraded makes of the header, when it is there. */
  function HeaderRead(c: Connection): Connection {
    var headerEnd := Find(c.buffer, HEADER_END);
    if headerEnd == -1 then c
    else if Find(c.buffer[..headerEnd], SWITCHING) == -1 then Connection([], false, Closed, c.log)
    else Connection(c.buffer[headerEnd + 4..], true, Open, c.log)
  }

  /** The header is read first, then the frames. */
  lemma ProcessHeader(c: Connection)
    requires !c.upgraded
    ensures var d := HeaderRead(c); Process(c) == if d.upgraded then AfterDrain(Drain(d.buffer), d.log) else d
  {}

  /** One read; nothing is read any more once the connection is down. */
  function Receive(c: Connection, chunk: Bytes): Connection {
    if c.status != Open then c else Process(c.(buffer := c.buffer + chunk))
  }

  function ReceiveAll(c: Connection, chunks: seq<Bytes>): Connection
    decreases |chunks|
  {
    if chunks == [] then c else ReceiveAll(Receive(c, chunks[0]), chunks[1..])
  }

  function Concat(chunks: seq<Bytes>): Bytes {
    if chunks == [] then [] else chunks[0] + Concat(chunks[1..])
  }

  lemma DrainTwice(buffer: Bytes, log: seq<Frame>, more: Bytes)
    ensures var c := AfterDrain(Drain(buffer), log);
            (if c.status != Open then c else AfterDrain(Drain(c.buffer + more), c.log))
            == AfterDrain(Drain(buffer + more), log)
  {
    DrainAppend(buffer, more);
    var d := Drain(buffer);
    AppendAssociative(log, d.frames, Drain(d.rest + more).frames);
  }

  /** Processing what is left together with more bytes equals processing all of them at once. */
  lemma ProcessTwice(c: Connection, more: Bytes)
    requires c.status == Open
    ensures Receive(Process(c), more) == Process(c.(buffer := c.buffer + more))
  {
    if c.upgraded {
      DrainTwice(c.buffer, c.log, more);
    } else if Find(c.buffer, HEADER_END) >= 0 {
      HeaderTwice(c, more);
    }
  }

  lemma HeaderTwice(c: Connection, more: Bytes)
    requires c.status == Open && !c.upgraded && Find(c.buffer, HEADER_END) >= 0
    ensures Receive(Process(c), more) == Process(c.(buffer := c.buffer + more))
  {
    var headerEnd := Find(c.buffer, HEADER_END);
    var accepted, body := Find(c.buffer[..headerEnd], SWITCHING) != -1, c.buffer[headerEnd + 4..];
    HeaderStable(c.buffer, more);
    ProcessOpens(c, accepted, body);
    ProcessOpens(c.(buffer := c.buffer + more), accepted, body + more);
    AfterHeaderTwice(accepted, body, c.log, more);
  }

  lemma ProcessOpens(c: Connection, accepted: bool, body: Bytes)
    requires c.status == Open && !c.upgraded
    requires var headerEnd := Find(c.buffer, HEADER_END);
             && headerEnd >= 0
             && accepted == (Find(c.buffer[..headerEnd], SWITCHING) != -1)
             && body == c.buffer[headerEnd + 4..]
    ensures Process(c) == AfterHeader(accepted, body, c.log)
  {}

  lemma AfterHeaderTwice(accepted: bool, body: Bytes, log: seq<Frame>, more: Bytes)
    ensures Receive(AfterHeader(accepted, body, log), more) == AfterHeader(accepted, body + more, log)
  {
    if accepted {
      DrainTwice(body, log, more);
    }
  }

  /** The end of the header stays where it was first found. */
  lemma HeaderStable(buffer: Bytes, more: Bytes)
    requires Find(buffer, HEADER_END) >= 0
    ensures var headerEnd := Find(buffer, HEADER_END);
            && Find(buffer + more, HEADER_END) == headerEnd
            && (buffer + more)[..headerEnd] == buffer[..headerEnd]
            && (buffer + more)[headerEnd + 4..] == buffer[headerEnd + 4..] + more
  {
    FindStable(buffer, HEADER_END, more);
  }

  /** Two reads do what one read of both pieces does. */
  lemma ReceiveTwice(c: Connection, a: Bytes, b: Bytes)
    ensures Receive(Receive(c, a), b) == Receive(c, a + b)
  {
    if c.status == Open {
      AppendAssociative(c.buffer, a, b);
      ProcessTwice(c.(buffer := c.buffer + a), b);
    }
  }

  /** However the stream is cut into reads, the connection ends in the same state. */
  lemma {:induction false} ChunksDoNotMatter(c: Connection, chunks: seq<Bytes>)
    requires Receive(c, []) == c
    ensures ReceiveAll(c, chunks) == Receive(c, Concat(chunks))
    decreases |chunks|
  {
    if chunks == [] {
    } else {
      var next := Receive(c, chunks[0]);
      ReceiveTwice(c, chunks[0], []);
      assert chunks[0] + [] == chunks[0];
      ChunksDoNotMatter(next, chunks[1..]);
      ReceiveTwice(c, chunks[0], Concat(chunks[1..]));
    }
  }

  /**
   After a successful upgrade, the connection recovers exactly the opcodes and payloads that were sent, in order, up
   to the first close frame, for every mask, length form and division of the stream into reads.
   */
  lemma RecoversFrames(header: Bytes, ws: seq<Wire>, chunks: seq<Bytes>)
    requires IsHeader(header) && Accepts(header)
    requires forall i :: 0 <= i < |ws| ==> ValidWire(ws[i]) && Receivable(ws[i])
    requires Concat(chunks) == header + [13, 10, 13, 10] + WireAll(ws)
    ensures var c := ReceiveAll(CONNECTED, chunks);
            && c.log == UpToClose(Meanings(ws))
            && c.status == (if HasClose(Meanings(ws)) then Closed else Open)
            && c.buffer == []
  {
    ChunksDoNotMatter(CONNECTED, chunks);
    HeaderFound(header);
    Upgraded(header, WireAll(ws));
    DrainInvertsWire(ws);
  }

  /** As long as the header has not ended, the connection only collects bytes. */
  lemma WaitsForHeader(chunks: seq<Bytes>)
    requires forall i: nat :: !OccursAt(Concat(chunks), [13, 10, 13, 10], i)
    ensures ReceiveAll(CONNECTED, chunks) == Connection(Concat(chunks), false, Open, [])
  {
    ChunksDoNotMatter(CONNECTED, chunks);
    FindMeans(Concat(chunks), HEADER_END);
    assert [] + Concat(chunks) == Concat(chunks);
  }

  /** A header without "101" takes the connection down, and nothing after it is read. */
  lemma RefusedUpgrade(header: Bytes, rest: Bytes, chunks: seq<Bytes>)
    requires IsHeader(header) && !Accepts(header)
    requires Concat(chunks) == header + [13, 10, 13, 10] + rest
    ensures ReceiveAll(CONNECTED, chunks) == Connection([], false, Closed, [])
  {
    ChunksDoNotMatter(CONNECTED, chunks);
    HeaderFound(header);
    FindStable(header + HEADER_END, HEADER_END, rest);
    var stream := header + HEADER_END + rest;
    assert stream[..|header|] == header && [] + stream == stream;
  }

  /** The bytes after an accepted header are drained as frames. */
  lemma Upgraded(header: Bytes, body: Bytes)
    requires Find(header + HEADER_END, HEADER_END) == |header| && Find(header, SWITCHING) >= 0
    ensures Receive(CONNECTED, header + HEADER_END + body) == AfterDrain(Drain(body), [])
    ensures AfterDrain(Drain(body), []).log == Drain(body).frames
  {
    var stream := header + HEADER_END + body;
    FindStable(header + HEADER_END, HEADER_END, body);
    assert stream[..|header|] == header && stream[|header| + 4..] == body;
    assert [] + stream == stream;
    assert [] + Drain(body).frames == Drain(body).frames;
  }

  // ---------- The object ----------

  /** What is sent in answer to a frame: a pong for a ping, and status 1000 for a close frame. */
  function Reply(f: Frame): seq<Frame> {
    if f.opcode == OP_PING then [Frame(OP_PONG, f.payload)]
    else if f.opcode == OP_CLOSE then [Frame(OP_CLOSE, NORMAL_CLOSURE)]
    else []
  }

  const NORMAL_CLOSURE: Bytes := [0x03, 0xE8]

  function Replies(frames: seq<Frame>): seq<Frame> {
    if frames == [] then [] else Replies(frames[..|frames| - 1]) + Reply(frames[|frames| - 1])
  }

  /** The payloads handed to the JSON handler. */
  function Texts(frames: seq<Frame>): seq<Bytes> {
    if frames == [] then []
    else
      var last := frames[|frames| - 1];
      Texts(frames[..|frames| - 1]) + if last.opcode == OP_TEXT then [last.payload] else []
  }

  /** The payloads of the frames with one opcode, in order. */
  function Payloads(frames: seq<Frame>, opcode: nat): seq<Bytes> {
    if frames == [] then []
    else
      var last := frames[|frames| - 1];
      Payloads(frames[..|frames| - 1], opcode) + if last.opcode == opcode then [last.payload] else []
  }

  lemma PayloadsSnoc(frames: seq<Frame>, f: Frame, opcode: nat)
    ensures Payloads(frames + [f], opcode) == Payloads(frames, opcode) + if f.opcode == opcode then [f.payload] else []
  {
    assert (frames + [f])[..|frames|] == frames;
  }

  /**
   What is answered and handed on, by section 5.5 of RFC 6455: one pong for every ping, with its payload and in order;
   status 1000 for a close frame; nothing else. The JSON handler gets the payloads of the text frames.
   */
  lemma {:induction false} AnswersMean(frames: seq<Frame>)
    ensures Payloads(Replies(frames), 0xA) == Payloads(frames, 0x9)
    ensures |Payloads(Replies(frames), 0x8)| == |Payloads(frames, 0x8)|
    ensures forall i :: 0 <= i < |Payloads(Replies(frames), 0x8)| ==> Payloads(Replies(frames), 0x8)[i] == [0x03, 0xE8]
    ensures forall i :: 0 <= i < |Replies(frames)| ==> Replies(frames)[i].opcode in {0x8, 0xA}
    ensures Texts(frames) == Payloads(frames, 0x1)
  {
    if frames == [] {
    } else {
      var init, last := frames[..|frames| - 1], frames[|frames| - 1];
      AnswersMean(init);
      assert frames == init + [last];
      PayloadsSnoc(init, last, 0x9);
      PayloadsSnoc(init, last, 0x8);
      PayloadsSnoc(init, last, 0x1);
      OneAnswer(Replies(init), last);
    }
  }

  lemma OneAnswer(replies: seq<Frame>, f: Frame)
    ensures Payloads(replies + Reply(f), 0xA) == Payloads(replies, 0xA) + if f.opcode == 0x9 then [f.payload] else []
    ensures Payloads(replies + Reply(f), 0x8) == Payloads(replies, 0x8) + if f.opcode == 0x8 then [[0x03, 0xE8]] else []
  {
    if Reply(f) == [] {
      assert replies + [] == replies;
    } else {
      PayloadsSnoc(replies, Reply(f)[0], 0xA);
      PayloadsSnoc(replies, Reply(f)[0], 0x8);
      assert Reply(f) == [Reply(f)[0]];
    }
  }

  lemma SnocReplies(frames: seq<Frame>, f: Frame)
    ensures Replies(frames + [f]) == Replies(frames) + Reply(f)
    ensures Texts(frames + [f]) == Texts(frames) + if f.opcode == OP_TEXT then [f.payload] else []
  {}

  lemma {:induction false} WireAllSnoc(ws: seq<Wire>, w: Wire)
    requires forall i :: 0 <= i < |ws| ==> ValidWire(ws[i])
    requires ValidWire(w)
    ensures WireAll(ws + [w]) == WireAll(ws) + WireBytes(w)
  {
    if ws == [] {
      assert WireAll([w]) == WireBytes(w) + WireAll([w][1..]);
    } else {
      assert (ws + [w])[1..] == ws[1..] + [w];
      WireAllSnoc(ws[1..], w);
    }
  }

  lemma MeaningsSnoc(ws: seq<Wire>, w: Wire)
    ensures Meanings(ws + [w]) == Meanings(ws) + [Meaning(w)]
  {}

  /** The extended length in big-endian order. */
  method ReadLength(field: Bytes) returns (payloadLen: nat)
    ensures payloadLen == FromBigEndian(field)
  {
    payloadLen := 0;
    for i := 0 to |field|
      invariant payloadLen == FromBigEndian(field[..i])
    {
      payloadLen := payloadLen * 256 + field[i];
      assert field[..i + 1][..i] == field[..i];
    }
    assert field[..|field|] == field;
  }

  method Unmask(raw: Bytes, maskKey: Bytes) returns (payload: Bytes)
    requires |maskKey| == 4
    ensures payload == Xor(raw, maskKey)
  {
    payload := raw;
    for i := 0 to |payload|
      invariant |payload| == |raw|
      invariant forall k :: 0 <= k < i ==> payload[k] == XorByte(raw[k], maskKey[k % 4])
      invariant forall k :: i <= k < |raw| ==> payload[k] == raw[k]
    {
      payload := payload[i := XorByte(payload[i], maskKey[i % 4])];
    }
  }

  /** Reads the first frame of the buffer, following the receiver's steps. */
  method ReadFrame(buffer: Bytes) returns (r: Parsed)
    requires |buffer| >= 2
    ensures r == ParseFrame(buffer)
  {
    var masked := buffer[1] >= 128;
    var payloadLen: nat := buffer[1] % 128;
    var headerOffset := 2;
    if payloadLen == 126 {
      if |buffer| < 4 {
        return NeedMore;
      }
      payloadLen := buffer[2] as nat * 256 + buffer[3];
      TwoBytes(buffer[2..4]);
      headerOffset := 4;
    } else if payloadLen == 127 {
      if |buffer| < 10 {
        return NeedMore;
      }
      payloadLen := ReadLength(buffer[2..10]);
      headerOffset := 10;
    }
    assert payloadLen == DeclaredLength(buffer);
    if masked {
      headerOffset := headerOffset + 4;
    }
    if |buffer| < (headerOffset + payloadLen) % LIMIT_64 {
      return NeedMore;
    }
    if headerOffset + payloadLen >= LIMIT_32 {
      return TooLong;
    }
    var payload := buffer[headerOffset..headerOffset + payloadLen];
    if masked {
      payload := Unmask(payload, buffer[headerOffset - 4..headerOffset]);
    }
    r := Got(Frame(buffer[0] % 16, payload), headerOffset + payloadLen);
  }

  class GatewaySocket {
    var buffer: Bytes
    var upgraded: bool
    var status: Status
    var jsons: seq<Bytes>      // payloads handed to the JSON handler
    var written: Bytes         // bytes written to the socket
    ghost var log: seq<Frame>  // frames received
    ghost var sent: seq<Wire>  // frames written

    ghost predicate Valid()
      reads this
    {
      && Written()
      && Meanings(sent) == Replies(log)
      && jsons == Texts(log)
      && (status == Stuck ==> buffer == [])
    }

    /** The bytes written are exactly the frames sent. */
    ghost predicate Written()
      reads this`written, this`sent
    {
      (forall i :: 0 <= i < |sent| ==> ValidWire(sent[i])) && written == WireAll(sent)
    }

    ghost function State(): Connection
      reads this
    {
      Connection(buffer, upgraded, status, log)
    }

    constructor ()
      ensures Valid() && State() == CONNECTED
    {
      buffer, upgraded, status, jsons, written := [], false, Open, [], [];
      log, sent := [], [];
    }

    /** Sends one frame; without a connection that is upgraded nothing is sent. */
    method SendFrame(opcode: Byte, payload: Bytes, randVal: nat)
      requires Written() && |payload| < LIMIT_64
      modifies this`written, this`sent
      ensures Written()
      ensures Sends(old(sent), if upgraded && status != Closed then [Frame(opcode % 16, payload)] else [])
    {
      if status == Closed || !upgraded {
        assert Meanings(sent) + [] == Meanings(sent);
        return;
      }
      var frame := BuildFrame(opcode, payload, randVal);
      ghost var mask := MaskOf(randVal);
      SentMeans(opcode, payload, mask);
      Write(frame, Sent(opcode, payload, mask));
    }

    /** The given frames were sent after those of `before`. */
    ghost predicate Sends(before: seq<Wire>, frames: seq<Frame>)
      reads this`sent
    {
      Meanings(sent) == Meanings(before) + frames
    }

    method Write(frame: Bytes, ghost w: Wire)
      requires Written() && ValidWire(w) && frame == WireBytes(w)
      modifies this`written, this`sent
      ensures Written() && Sends(old(sent), [Meaning(w)])
    {
      WireAllSnoc(sent, w);
      MeaningsSnoc(sent, w);
      written := written + frame;
      sent := sent + [w];
    }

    /** The close frame of an orderly end, with status 1000. */
    method SendClose(randVal: nat)
      requires Written()
      modifies this`written, this`sent
      ensures Written()
      ensures Sends(old(sent), if upgraded && status != Closed then [Frame(OP_CLOSE, NORMAL_CLOSURE)] else [])
    {
      SendFrame(OP_CLOSE, NORMAL_CLOSURE, randVal);
    }

    /** Takes the connection down; without one, only the state is reset. */
    method Disconnect(randVal: nat)
      requires Written()
      modifies this`buffer, this`upgraded, this`status, this`written, this`sent
      ensures buffer == [] && !upgraded && status == Closed
      ensures Written()
      ensures Sends(old(sent), if old(upgraded && status != Closed) then [Frame(OP_CLOSE, NORMAL_CLOSURE)] else [])
    {
      SendClose(randVal);
      buffer, upgraded, status := [], false, Closed;
    }

    /** Answers a frame; a close frame takes the connection down. */
    method Answer(frame: Frame, randVal: nat)
      requires Written() && upgraded && status == Open && |frame.payload| < LIMIT_64
      modifies this`buffer, this`upgraded, this`status, this`written, this`sent
      ensures Written() && Sends(old(sent), Reply(frame))
      ensures frame.opcode == OP_CLOSE ==> buffer == [] && !upgraded && status == Closed
      ensures frame.opcode != OP_CLOSE ==> buffer == old(buffer) && upgraded && status == Open
    {
      if frame.opcode == OP_CLOSE {
        Disconnect(randVal);
      } else if frame.opcode == OP_PING {
        SendFrame(OP_PONG, frame.payload, randVal);
      } else {
        assert Meanings(sent) + [] == Meanings(sent);
      }
    }

    /** Acts on one received frame. */
    method Handle(frame: Frame, randVal: nat)
      requires Valid() && upgraded && status == Open && |frame.payload| < LIMIT_64
      modifies this
      ensures Valid() && log == old(log) + [frame]
      ensures frame.opcode == OP_CLOSE ==> buffer == [] && !upgraded && status == Closed
      ensures frame.opcode != OP_CLOSE ==> buffer == old(buffer) && upgraded && status == Open
    {
      SnocReplies(log, frame);
      log := log + [frame];
      if frame.opcode == OP_TEXT {
        jsons := jsons + [frame.payload];
      }
      Answer(frame, randVal);
    }

    /** One read. `randVals` are the random numbers drawn for the masks of the answers. */
    method OnReadyRead(chunk: Bytes, randVals: nat -> nat)
      requires Valid() && status == Open
      modifies this
      ensures Valid() && State() == Receive(old(State()), chunk)
    {
      buffer := buffer + chunk;
      ghost var before := State();
      if !upgraded {
        ReadHeader(randVals(0));
        ProcessHeader(before);
      }
      if upgraded {
        DrainBuffer(randVals);
      }
      assert State() == Process(before);
    }

    /** Waits for the answer to the upgrade request; anything but "101" in it takes the connection down. */
    method ReadHeader(randVal: nat)
      requires Valid() && !upgraded && status == Open
      modifies this
      ensures Valid() && State() == HeaderRead(old(State()))
    {
      var headerEnd := Find(buffer, HEADER_END);
      if headerEnd == -1 {
        return;
      }
      var header := buffer[..headerEnd];
      buffer := buffer[headerEnd + 4..];
      if Find(header, SWITCHING) == -1 {
        Refuse(randVal);
        return;
      }
      upgraded := true;
    }

    /** Takes down a connection that was never upgraded, so without a word. */
    method Refuse(randVal: nat)
      requires Valid() && !upgraded
      modifies this
      ensures Valid() && State() == Connection([], false, Closed, old(log))
    {
      Disconnect(randVal);
      assert Meanings(old(sent)) + [] == Meanings(old(sent));
    }

    /** One round of the receive loop; `more` says whether the loop goes on. */
    method TakeFrame(randVal: nat) returns (more: bool)
      requires Valid() && upgraded && status == Open && |buffer| >= 2
      modifies this
      ensures Valid()
      ensures more ==> upgraded && status == Open && |buffer| < |old(buffer)|
      ensures more ==> AfterDrain(Drain(buffer), log) == old(AfterDrain(Drain(buffer), log))
      ensures !more ==> State() == old(AfterDrain(Drain(buffer), log))
    {
      AfterOneFrame(buffer, log);
      var parsed := ReadFrame(buffer);
      if parsed == NeedMore {
        return false;
      }
      if parsed == TooLong {
        buffer, status := [], Stuck;
        return false;
      }
      buffer := buffer[parsed.used..];
      Handle(parsed.frame, randVal);
      more := status != Closed;
    }

    method DrainBuffer(randVals: nat -> nat)
      requires Valid() && upgraded && status == Open
      modifies this
      ensures Valid() && State() == AfterDrain(Drain(old(buffer)), old(log))
    {
      ghost var end := AfterDrain(Drain(buffer), log);
      var drawn := 0;
      while |buffer| >= 2
        invariant Valid() && upgraded && status == Open
        invariant end == AfterDrain(Drain(buffer), log)
        decreases |buffer|
      {
        var more := TakeFrame(randVals(drawn));
        if !more {
          return;
        }
        drawn := drawn + 1;
      }
      AfterOneFrame(buffer, log);
    }
  }

  /** What the first frame makes of the outcome: it moves from the buffer to the log. */
  lemma AfterOneFrame(buffer: Bytes, log: seq<Frame>)
    ensures var parsed := ParseFrame(buffer);
            AfterDrain(Drain(buffer), log) ==
            if parsed == NeedMore then Connection(buffer, true, Open, log)
            else if parsed == TooLong then Connection([], true, Stuck, log)
            else if parsed.frame.opcode == OP_CLOSE then Connection([], false, Closed, log + [parsed.frame])
            else AfterDrain(Drain(buffer[parsed.used..]), log + [parsed.frame])
    ensures |buffer| < 2 ==> ParseFrame(buffer) == NeedMore
  {
    match ParseFrame(buffer) {
      case NeedMore =>
        assert log + [] == log;
      case TooLong =>
        assert log + [] == log;
      case Got(f, used) =>
        if f.opcode != OP_CLOSE {
          DrainStep(buffer);
          AppendAssociative(log, [f], Drain(buffer[used..]).frames);
        }
    }
  }
}
