/** What a byte stream means to one end of a WebSocket connection: the messages it delivers and the
    control frames it provokes. This is the specification that the reading methods of WsConn are
    proved against, and the laws that tie it to the frames the peer wrote. */
module WsStream {
  import opened Bytes
  import opened WsFrames

  const MAX_CONTROL: nat := 125

  datatype Message = Message(opcode: bv8, payload: Octets)

  datatype Frame = Frame(header: Header, payload: Octets)

  datatype Kind = Violation | Closing | Control | Data

  /** HandleFrame's verdict: the masking rule first, then the opcode. */
  function KindOf(h: Header, server: bool): Kind {
    if h.key.Some? != server then Violation
    else if h.opcode == CLOSE then Closing
    else if h.opcode == PING || h.opcode == PONG then Control
    else Data
  }

  /** The opcode a data frame is delivered under: a continuation takes the remembered one. */
  function DeliveredOpcode(opcode: bv8, last: bv8): bv8 {
    if opcode == CONTINUATION then last else opcode
  }

  /** The handler's remembered payload type after a data frame. */
  function Remember(opcode: bv8, last: bv8): bv8 {
    if opcode == TEXT || opcode == BINARY then opcode else last
  }

  /** Where the frame whose header is p ends in s, or the end of s if that comes first. */
  function FrameEnd(p: Parsed, s: Octets): (e: nat)
    requires p.size <= |s|
    ensures p.size <= e <= |s|
  {
    Clamp(p.size + p.length, s)
  }

  function Payload(p: Parsed, s: Octets): Octets
    requires p.size <= |s| && KeyOk(p.header)
  {
    Cover(p.header.key, s[p.size..FrameEnd(p, s)], 0)
  }

  function After(p: Parsed, s: Octets): Octets
    requires p.size <= |s|
  {
    s[FrameEnd(p, s)..]
  }

  /** The messages a reader starting at the front of s is given before it first meets end of file. */
  function Messages(s: Octets, server: bool, last: bv8): seq<Message>
    decreases |s|
  {
    match ParseHeader(s)
    case None => []
    case Some(p) =>
      match KindOf(p.header, server)
      case Violation => []
      case Closing => []
      case Control => Messages(After(p, s), server, last)
      case Data =>
        [Message(DeliveredOpcode(p.header.opcode, last), Payload(p, s))]
        + Messages(After(p, s), server, Remember(p.header.opcode, last))
  }

  function Truncate(b: Octets): Octets {
    if |b| <= MAX_CONTROL then b else b[..MAX_CONTROL]
  }

  /** The close status 1002 of the masking rule. */
  const PROTOCOL_ERROR: Octets := [0x03, 0xEA]

  function ReplyTo(h: Header, payload: Octets): seq<Message> {
    if h.opcode == PING then [Message(PONG, Truncate(payload))] else []
  }

  /** The control frames the reader writes back before it first meets end of file. */
  function Replies(s: Octets, server: bool): seq<Message>
    decreases |s|
  {
    match ParseHeader(s)
    case None => []
    case Some(p) =>
      match KindOf(p.header, server)
      case Violation => [Message(CLOSE, PROTOCOL_ERROR)]
      case Closing => []
      case Control => ReplyTo(p.header, Payload(p, s)) + Replies(After(p, s), server)
      case Data => Replies(After(p, s), server)
  }

  function Joined(ms: seq<Message>): Octets {
    if ms == [] then [] else ms[0].payload + Joined(ms[1..])
  }

  // ----- what a connection still has in store -----

  /** A connection as its user sees it: the unread rest of the current frame, the stream after it, the
      handler's remembered payload type, and the frames written so far. */
  datatype View = View(pending: Octets, ahead: Octets, remembered: bv8, sent: seq<Message>)

  /** The whole messages still to come. */
  function Queue(v: View, server: bool): seq<Message> {
    Messages(v.ahead, server, v.remembered)
  }

  /** The payload bytes still to come, as Read sees them. */
  function Stream(v: View, server: bool): Octets {
    v.pending + Joined(Queue(v, server))
  }

  /** The frames written so far, followed by the replies still to be provoked. */
  function SentAndOwed(v: View, server: bool): seq<Message> {
    v.sent + Replies(v.ahead, server)
  }

  /** How one turn of the reading loop can end: end of file, a control frame swallowed, or a data frame
      opened under an opcode. */
  datatype Turn = Ended(sent: seq<Message>) | Swallowed(view: View) | Opened(view: View, opcode: bv8)

  /** NewFrameReader and HandleFrame together, on a connection between frames. */
  function NextTurn(v: View, server: bool): Turn {
    match ParseHeader(v.ahead)
    case None => Ended(v.sent)
    case Some(p) =>
      var payload, after := Payload(p, v.ahead), After(p, v.ahead);
      match KindOf(p.header, server)
      case Violation => Ended(v.sent + [Message(CLOSE, PROTOCOL_ERROR)])
      case Closing => Ended(v.sent)
      case Control => Swallowed(View([], after, v.remembered, v.sent + ReplyTo(p.header, payload)))
      case Data =>
        Opened(View(payload, after, Remember(p.header.opcode, v.remembered), v.sent),
               DeliveredOpcode(p.header.opcode, v.remembered))
  }

  /** A turn loses no message and no reply: what it opens is the front of the queue, and it ends only
      when the queue is empty and every reply is out. */
  lemma TurnKeeps(v: View, server: bool)
    ensures match NextTurn(v, server)
            case Ended(sent) => Queue(v, server) == [] && sent == SentAndOwed(v, server)
            case Swallowed(w) =>
              Queue(v, server) == Queue(w, server) && SentAndOwed(w, server) == SentAndOwed(v, server)
            case Opened(w, opcode) =>
              && Queue(v, server) == [Message(opcode, w.pending)] + Queue(w, server)
              && SentAndOwed(w, server) == SentAndOwed(v, server)
  {
    var parsed := ParseHeader(v.ahead);
    if parsed.Some? {
      FrontFrame(v.ahead, parsed.value, server, v.remembered);
      var reply := ReplyTo(parsed.value.header, Payload(parsed.value, v.ahead));
      assert v.sent + (reply + Replies(After(parsed.value, v.ahead), server))
             == (v.sent + reply) + Replies(After(parsed.value, v.ahead), server);
    }
  }

  /** The messages and replies of a stream whose first header is p. */
  lemma FrontFrame(s: Octets, p: Parsed, server: bool, last: bv8)
    requires ParseHeader(s) == Some(p)
    ensures match KindOf(p.header, server)
            case Violation => Messages(s, server, last) == [] && Replies(s, server) == [Message(CLOSE, PROTOCOL_ERROR)]
            case Closing => Messages(s, server, last) == [] && Replies(s, server) == []
            case Control =>
              && Messages(s, server, last) == Messages(After(p, s), server, last)
              && Replies(s, server) == ReplyTo(p.header, Payload(p, s)) + Replies(After(p, s), server)
            case Data =>
              && Messages(s, server, last) == [Message(DeliveredOpcode(p.header.opcode, last), Payload(p, s))]
                                              + Messages(After(p, s), server, Remember(p.header.opcode, last))
              && Replies(s, server) == Replies(After(p, s), server)
  {
  }

  /** The payload of a frame, byte by byte: as much of it as the stream holds, each byte XORed with the key's bytes in
      turn. */
  lemma PayloadBytes(p: Parsed, s: Octets)
    requires p.size <= |s| && KeyOk(p.header)
    ensures var payload, end := Payload(p, s), if p.size + p.length <= |s| then p.size + p.length else |s|;
            && |payload| == end - p.size && After(p, s) == s[end..]
            && forall j | 0 <= j < |payload| ::
                 payload[j] == if p.header.key.Some? then s[p.size + j] ^ p.header.key.value[j % 4] else s[p.size + j]
  {
    CoverAt(p.header.key, s[p.size..FrameEnd(p, s)], 0);
  }

  /** What the first frame of a stream does, opcode by opcode: a frame masked when it should not be, or the other way
      round, is answered with a Close of status 1002 and nothing is read behind it; a Close (8) ends the stream; a ping
      (9) is answered by a pong (10) of its first 125 bytes; a pong is dropped; anything else is a message, a
      continuation (0) under the opcode of the latest text (1) or binary (2) frame. */
  lemma FrontByOpcode(s: Octets, server: bool, last: bv8)
    requires ParseHeader(s).Some?
    ensures var p := ParseHeader(s).value;
            var opcode, payload, after := p.header.opcode, Payload(p, s), After(p, s);
            var messages, replies := Messages(s, server, last), Replies(s, server);
            if p.header.key.Some? != server then messages == [] && replies == [Message(8, [0x03, 0xEA])]
            else if opcode == 8 then messages == [] && replies == []
            else if opcode == 9 then
              var pong := if |payload| <= 125 then payload else payload[..125];
              messages == Messages(after, server, last) && replies == [Message(10, pong)] + Replies(after, server)
            else if opcode == 10 then
              messages == Messages(after, server, last) && replies == Replies(after, server)
            else
              && messages == [Message(if opcode == 0 then last else opcode, payload)]
                             + Messages(after, server, if opcode == 1 || opcode == 2 then opcode else last)
              && replies == Replies(after, server)
  {
    FrontFrame(s, ParseHeader(s).value, server, last);
  }

  lemma TurnKeepsStream(v: View, server: bool)
    requires v.pending == []
    ensures match NextTurn(v, server)
            case Ended(sent) => Stream(v, server) == []
            case Swallowed(w) => Stream(v, server) == Stream(w, server)
            case Opened(w, opcode) => Stream(v, server) == Stream(w, server)
  {
    TurnKeeps(v, server);
    match NextTurn(v, server)
    case Ended(sent) =>
    case Swallowed(w) =>
    case Opened(w, opcode) => assert Queue(v, server)[1..] == Queue(w, server);
  }

  lemma TurnEnds(v: View, server: bool, sent: seq<Message>)
    requires v.pending == [] && NextTurn(v, server) == Ended(sent)
    ensures Stream(v, server) == [] && sent == SentAndOwed(v, server)
  {
    TurnKeeps(v, server);
    TurnKeepsStream(v, server);
  }

  lemma TurnGoesOn(v: View, server: bool, w: View, opcode: bv8)
    requires v.pending == [] && (NextTurn(v, server) == Swallowed(w) || NextTurn(v, server) == Opened(w, opcode))
    ensures Stream(v, server) == Stream(w, server) && SentAndOwed(w, server) == SentAndOwed(v, server)
  {
    TurnKeeps(v, server);
    TurnKeepsStream(v, server);
  }

  /** Reading the first bytes of the pending payload takes them off the stream and nothing else. */
  lemma PartOfStream(v: View, w: View, part: Octets, server: bool)
    requires v.pending == part + w.pending && w == v.(pending := w.pending)
    ensures Stream(v, server) == part + Stream(w, server) && SentAndOwed(v, server) == SentAndOwed(w, server)
  {
  }

  // ----- frames as the peer wrote them -----

  predicate FrameOk(f: Frame) {
    KeyOk(f.header) && f.header.opcode < 16 && |f.payload| <= MAX_INT
  }

  predicate KeysOk(fs: seq<Frame>) {
    forall i | 0 <= i < |fs| :: KeyOk(fs[i].header)
  }

  predicate FramesOk(fs: seq<Frame>) {
    forall i | 0 <= i < |fs| :: FrameOk(fs[i])
  }

  function EncodeAll(fs: seq<Frame>): Octets
    requires KeysOk(fs)
  {
    if fs == [] then [] else Encode(fs[0].header, fs[0].payload) + EncodeAll(fs[1..])
  }

  lemma {:induction false} EncodeAllAppend(fs: seq<Frame>, f: Frame)
    requires KeysOk(fs) && KeyOk(f.header)
    ensures EncodeAll(fs + [f]) == EncodeAll(fs) + Encode(f.header, f.payload)
  {
    if fs == [] {
      assert [f][1..] == [];
    } else {
      assert (fs + [f])[1..] == fs[1..] + [f];
      EncodeAllAppend(fs[1..], f);
    }
  }

  /** The messages in a list of frames, up to the first Close or masking violation. */
  function Delivered(fs: seq<Frame>, server: bool, last: bv8): seq<Message> {
    if fs == [] then [] else
    var f := fs[0];
    match KindOf(f.header, server)
    case Violation => []
    case Closing => []
    case Control => Delivered(fs[1..], server, last)
    case Data =>
      [Message(DeliveredOpcode(f.header.opcode, last), f.payload)]
      + Delivered(fs[1..], server, Remember(f.header.opcode, last))
  }

  /** The replies a list of frames provokes. */
  function Provoked(fs: seq<Frame>, server: bool): seq<Message> {
    if fs == [] then [] else
    match KindOf(fs[0].header, server)
    case Violation => [Message(CLOSE, PROTOCOL_ERROR)]
    case Closing => []
    case Control => ReplyTo(fs[0].header, fs[0].payload) + Provoked(fs[1..], server)
    case Data => Provoked(fs[1..], server)
  }

  /** One encoded frame at the front of the stream is read back whole, and reading goes on after it. */
  lemma FrameReadBack(f: Frame, rest: Octets)
    requires FrameOk(f)
    ensures var s := Encode(f.header, f.payload) + rest;
            && ParseHeader(s).Some?
            && var p := ParseHeader(s).value;
            && p.header == f.header && p.length == |f.payload|
            && Payload(p, s) == f.payload && After(p, s) == rest
  {
    var h, m := f.header, f.payload;
    var e, c := EncodeHeader(h, |m|), Cover(h.key, m, 0);
    var s := Encode(h, m) + rest;
    assert s == e + (c + rest);
    HeaderRoundTrip(h, |m|, c + rest);
    FirstByteRoundTrip(h);
    assert s[|e|..|e| + |c|] == c;
    assert s[|e| + |c|..] == rest;
    CoverTwice(h.key, m, 0);
  }

  /** The payload is whole exactly when the stream reaches as far as the header announces. */
  lemma WholeExactly(p: Parsed, s: Octets)
    requires p.size <= |s| && KeyOk(p.header)
    ensures |Payload(p, s)| == p.length <==> p.size + p.length <= |s|
  {
  }

  /** The header and what is left of the payload of a frame cut off after n bytes. */
  lemma CutFrame(f: Frame, n: nat)
    requires FrameOk(f) && n <= |Encode(f.header, f.payload)|
    ensures var s, size := Encode(f.header, f.payload)[..n], |EncodeHeader(f.header, |f.payload|)|;
            if n < size then ParseHeader(s) == None
            else
              && ParseHeader(s) == Some(Parsed(f.header, |f.payload|, size))
              && Payload(ParseHeader(s).value, s) == f.payload[..n - size] && After(ParseHeader(s).value, s) == []
  {
    var h, m := f.header, f.payload;
    var whole, e, c := Encode(h, m), EncodeHeader(h, |m|), Cover(h.key, m, 0);
    HeaderRoundTrip(h, |m|, c);
    FirstByteRoundTrip(h);
    ParseLocal(whole, n);
    if n >= |e| {
      assert whole[..n] == e + c[..n - |e|];
      CutPayload(h, m, e, n - |e|);
    }
  }

  lemma CutPayload(h: Header, m: Octets, e: Octets, j: nat)
    requires KeyOk(h) && j <= |m|
    ensures var s, p := e + Cover(h.key, m, 0)[..j], Parsed(h, |m|, |e|);
            Payload(p, s) == m[..j] && After(p, s) == []
  {
    var c := Cover(h.key, m, 0)[..j];
    var s := e + c;
    assert FrameEnd(Parsed(h, |m|, |e|), s) == |s| && s[|e|..|s|] == c;
    CoverPrefix(h.key, m, j);
    CoverTwice(h.key, m[..j], 0);
  }

  /** A data frame cut off by the end of the stream is delivered all the same, as a message of the bytes
      that arrived, once its header is complete: short exactly when bytes of the payload are missing. */
  lemma CutOff(f: Frame, n: nat, server: bool, last: bv8)
    requires FrameOk(f) && KindOf(f.header, server).Data? && n <= |Encode(f.header, f.payload)|
    ensures var size := |EncodeHeader(f.header, |f.payload|)|;
            Messages(Encode(f.header, f.payload)[..n], server, last) ==
              if n < size then [] else [Message(DeliveredOpcode(f.header.opcode, last), f.payload[..n - size])]
  {
    CutFrame(f, n);
  }

  /** For one, a text frame of two bytes of which one arrived. */
  lemma ShortMessage()
    ensures var text := Header(true, false, false, false, TEXT, None);
            Messages(Encode(text, [0x68, 0x69])[..3], false, CONTINUATION) == [Message(TEXT, [0x68])]
  {
    var h := Header(true, false, false, false, TEXT, None);
    var f := Frame(h, [0x68, 0x69]);
    assert |EncodeHeader(h, 2)| == 2;
    CutOff(f, 3, false, CONTINUATION);
    assert f.payload[..1] == [0x68];
  }

  /** Reading one encoded frame first, whatever follows it. */
  lemma OneFrame(f: Frame, rest: Octets, server: bool, last: bv8)
    requires FrameOk(f)
    ensures var s := Encode(f.header, f.payload) + rest;
            match KindOf(f.header, server)
            case Violation => Messages(s, server, last) == [] && Replies(s, server) == [Message(CLOSE, PROTOCOL_ERROR)]
            case Closing => Messages(s, server, last) == [] && Replies(s, server) == []
            case Control =>
              && Messages(s, server, last) == Messages(rest, server, last)
              && Replies(s, server) == ReplyTo(f.header, f.payload) + Replies(rest, server)
            case Data =>
              && Messages(s, server, last) == [Message(DeliveredOpcode(f.header.opcode, last), f.payload)]
                                              + Messages(rest, server, Remember(f.header.opcode, last))
              && Replies(s, server) == Replies(rest, server)
  {
    FrameReadBack(f, rest);
  }

  /** The peer's frames, written back to back, are delivered as exactly their messages, with exactly
      their replies; frames after a Close or a violation no longer matter. */
  lemma {:induction false} StreamOfFrames(fs: seq<Frame>, server: bool, last: bv8)
    requires FramesOk(fs)
    ensures Messages(EncodeAll(fs), server, last) == Delivered(fs, server, last)
    ensures Replies(EncodeAll(fs), server) == Provoked(fs, server)
  {
    if fs != [] {
      OneFrame(fs[0], EncodeAll(fs[1..]), server, last);
      StreamOfFrames(fs[1..], server, last);
      StreamOfFrames(fs[1..], server, Remember(fs[0].header.opcode, last));
    }
  }

  /** What the first n bytes of the frames bring: the frames that are whole by then and, once its header is
      complete, the one that is cut off, with the part of its payload that is there. */
  function Arrived(fs: seq<Frame>, n: nat): (gs: seq<Frame>)
    requires KeysOk(fs)
    ensures |gs| <= |fs| && forall i | 0 <= i < |gs| :: gs[i].header == fs[i].header
  {
    if fs == [] then []
    else
      var f := fs[0];
      var whole, size := |Encode(f.header, f.payload)|, |EncodeHeader(f.header, |f.payload|)|;
      if n >= whole then [f] + Arrived(fs[1..], n - whole)
      else if n < size then []
      else [Frame(f.header, f.payload[..n - size])]
  }

  lemma {:induction false} AllArrived(fs: seq<Frame>)
    requires KeysOk(fs)
    ensures Arrived(fs, |EncodeAll(fs)|) == fs
  {
    if fs != [] {
      AllArrived(fs[1..]);
    }
  }

  /** The one frame that is cut off. */
  lemma CutMessages(f: Frame, n: nat, server: bool, last: bv8)
    requires FrameOk(f) && n < |Encode(f.header, f.payload)|
    ensures var s, gs := Encode(f.header, f.payload)[..n], Arrived([f], n);
            Messages(s, server, last) == Delivered(gs, server, last) && Replies(s, server) == Provoked(gs, server)
  {
    CutFrame(f, n);
  }

  lemma WholeThenCut(f: Frame, rest: Octets, gs: seq<Frame>, server: bool, last: bv8)
    requires FrameOk(f) && Replies(rest, server) == Provoked(gs, server)
    requires Messages(rest, server, last) == Delivered(gs, server, last)
    requires var l := Remember(f.header.opcode, last); Messages(rest, server, l) == Delivered(gs, server, l)
    ensures var s := Encode(f.header, f.payload) + rest;
            && Messages(s, server, last) == Delivered([f] + gs, server, last)
            && Replies(s, server) == Provoked([f] + gs, server)
  {
    OneFrame(f, rest, server, last);
    assert ([f] + gs)[1..] == gs;
  }

  /** A stream of frames cut off after n bytes delivers exactly the messages of what has arrived by then, and
      provokes exactly the replies. */
  lemma {:induction false} CutStream(fs: seq<Frame>, n: nat, server: bool, last: bv8)
    requires FramesOk(fs) && n <= |EncodeAll(fs)|
    ensures Messages(EncodeAll(fs)[..n], server, last) == Delivered(Arrived(fs, n), server, last)
    ensures Replies(EncodeAll(fs)[..n], server) == Provoked(Arrived(fs, n), server)
  {
    if fs != [] {
      var f, tail := fs[0], EncodeAll(fs[1..]);
      var whole := Encode(f.header, f.payload);
      if n < |whole| {
        TakeWithin(whole, tail, n);
        CutMessages(f, n, server, last);
      } else {
        CutStream(fs[1..], n - |whole|, server, last);
        CutStream(fs[1..], n - |whole|, server, Remember(f.header.opcode, last));
        TakeBeyond(whole, tail, n);
        WholeThenCut(f, tail[..n - |whole|], Arrived(fs[1..], n - |whole|), server, last);
      }
    }
  }

  predicate FromPeer(fs: seq<Frame>, server: bool) {
    forall f | f in fs :: f.header.key.Some? == server
  }

  function WithoutControl(fs: seq<Frame>, server: bool): seq<Frame> {
    if fs == [] then []
    else if KindOf(fs[0].header, server).Control? then WithoutControl(fs[1..], server)
    else [fs[0]] + WithoutControl(fs[1..], server)
  }

  /** Pings and pongs between data frames change nothing in what is delivered. */
  lemma {:induction false} ControlInvisible(fs: seq<Frame>, server: bool, last: bv8)
    ensures Delivered(WithoutControl(fs, server), server, last) == Delivered(fs, server, last)
  {
    if fs != [] {
      var h, rest := fs[0].header, fs[1..];
      match KindOf(h, server)
      case Violation =>
      case Closing =>
      case Control =>
        ControlInvisible(rest, server, last);
      case Data =>
        ControlInvisible(rest, server, Remember(h.opcode, last));
        assert WithoutControl(fs, server)[1..] == WithoutControl(rest, server);
    }
  }

  /** The opcode of the latest text or binary frame among the first n, or `last` when there is none. */
  function Latest(fs: seq<Frame>, n: nat, last: bv8): bv8
    requires n <= |fs|
  {
    if n == 0 then last else Remember(fs[n - 1].header.opcode, Latest(fs, n - 1, last))
  }

  /** With neither control frames nor violations, message i is frame i, a continuation frame carrying
      the opcode of the latest text or binary frame before it. */
  lemma {:induction false} ContinuationOpcode(fs: seq<Frame>, server: bool, last: bv8, i: nat)
    requires forall f | f in fs :: KindOf(f.header, server).Data?
    requires i < |fs|
    ensures |Delivered(fs, server, last)| == |fs|
    ensures Delivered(fs, server, last)[i].payload == fs[i].payload
    ensures Delivered(fs, server, last)[i].opcode ==
            if fs[i].header.opcode != CONTINUATION then fs[i].header.opcode else Latest(fs, i, last)
  {
    var next := Remember(fs[0].header.opcode, last);
    if |fs| > 1 {
      ContinuationOpcode(fs[1..], server, next, if i == 0 then 0 else i - 1);
    }
    if i > 0 {
      LatestShift(fs, i, last);
    }
  }

  lemma {:induction false} LatestShift(fs: seq<Frame>, n: nat, last: bv8)
    requires 0 < n <= |fs|
    ensures Latest(fs, n, last) == Latest(fs[1..], n - 1, Remember(fs[0].header.opcode, last))
  {
    if n > 1 {
      LatestShift(fs, n - 1, last);
    } else {
      assert Latest(fs, 0, last) == last;
    }
  }

  // ----- frame boundaries -----

  /** Where the frame starting at position q of the stream ends; None when no whole header starts there. */
  function NextBoundary(data: Octets, q: nat): Option<nat>
    requires q <= |data|
  {
    match ParseHeader(data[q..])
    case None => None
    case Some(p) => Some(q + FrameEnd(p, data[q..]))
  }

  /** Frame after frame, starting at q, the stream arrives at p (a stream that stops inside a frame
      arrives at its own end). */
  predicate Reaches(data: Octets, q: nat, p: nat)
    requires q <= |data|
    decreases |data| - q
  {
    q == p ||
    (NextBoundary(data, q).Some? && q < NextBoundary(data, q).value && Reaches(data, NextBoundary(data, q).value, p))
  }

  /** The positions at which frames start, counted from the start of the stream. */
  predicate IsBoundary(data: Octets, p: nat) {
    p <= |data| && Reaches(data, 0, p)
  }

  lemma {:induction false} ReachesNext(data: Octets, q: nat, p: nat)
    requires q <= |data| && p <= |data| && Reaches(data, q, p) && NextBoundary(data, p).Some?
    ensures Reaches(data, q, NextBoundary(data, p).value)
    decreases |data| - q
  {
    if q == p {
      var r := NextBoundary(data, p).value;
      assert Reaches(data, r, r);
    } else {
      ReachesNext(data, NextBoundary(data, q).value, p);
    }
  }

  function Clamp(n: nat, data: Octets): (r: nat)
    ensures r <= |data|
  {
    if n <= |data| then n else |data|
  }

  /** Position `at` is inside the frame that starts at `start`, as far in as its header and the payload
      bytes consumed so far, which is also the mask position when the frame is masked. */
  predicate InsideFrame(data: Octets, start: nat, at: nat, key: Option<Octets>, remaining: nat, maskPos: nat) {
    && IsBoundary(data, start) && ParseHeader(data[start..]).Some?
    && var p := ParseHeader(data[start..]).value;
    && key == p.header.key && remaining <= p.length
    && at == start + p.size + (p.length - remaining)
    && maskPos == if key.Some? then p.length - remaining else 0
  }

  /** Consuming n payload bytes keeps the position inside the frame; consuming all there are arrives at a boundary. */
  lemma InsideMoves(data: Octets, start: nat, at: nat, key: Option<Octets>, remaining: nat, maskPos: nat, n: nat)
    requires InsideFrame(data, start, at, key, remaining, maskPos) && n <= remaining
    ensures InsideFrame(data, start, at + n, key, remaining - n, if key.Some? then maskPos + n else maskPos)
    ensures at + n == Clamp(at + remaining, data) ==> IsBoundary(data, at + n)
  {
    EndOfFrame(data, start, at, key, remaining, maskPos);
  }

  /** Where a frame ends is a boundary. */
  lemma EndOfFrame(data: Octets, start: nat, at: nat, key: Option<Octets>, remaining: nat, maskPos: nat)
    requires InsideFrame(data, start, at, key, remaining, maskPos)
    ensures IsBoundary(data, Clamp(at + remaining, data))
  {
    assert NextBoundary(data, start) == Some(Clamp(at + remaining, data));
    ReachesNext(data, 0, start);
  }

  lemma FrameSlices(data: Octets, start: nat, p: Parsed)
    requires start <= |data| && p.size <= |data| - start && KeyOk(p.header)
    ensures var at, s := start + p.size, data[start..];
            var end := Clamp(at + p.length, data);
            at <= end && Cover(p.header.key, data[at..end], 0) == Payload(p, s) && data[end..] == After(p, s)
  {
    var e := FrameEnd(p, data[start..]);
    assert start + e == Clamp(start + p.size + p.length, data);
    DropSlice(data, start, p.size, e);
    DropDrop(data, start, e);
  }

  lemma StartsInside(data: Octets, start: nat)
    requires start <= |data| && ParseHeader(data[start..]).Some? && IsBoundary(data, start)
    ensures var p := ParseHeader(data[start..]).value;
            && InsideFrame(data, start, start + p.size, p.header.key, p.length, 0)
            && IsBoundary(data, Clamp(start + p.size + p.length, data))
  {
    var p := ParseHeader(data[start..]).value;
    EndOfFrame(data, start, start + p.size, p.header.key, p.length, 0);
  }

  /** The frame that starts at `start`, in terms of positions in the whole stream. */
  lemma FrameAt(data: Octets, start: nat)
    requires start <= |data| && ParseHeader(data[start..]).Some?
    ensures var s := data[start..];
            var p := ParseHeader(s).value;
            var at, key := start + p.size, p.header.key;
            var end := Clamp(at + p.length, data);
            && at <= end && Cover(key, data[at..end], 0) == Payload(p, s) && data[end..] == After(p, s)
            && (IsBoundary(data, start) ==> InsideFrame(data, start, at, key, p.length, 0) && IsBoundary(data, end))
  {
    var s := data[start..];
    var p := ParseHeader(s).value;
    FrameSlices(data, start, p);
    if IsBoundary(data, start) {
      StartsInside(data, start);
    }
  }

  lemma {:induction false} ReachesForward(data: Octets, q: nat, p: nat)
    requires q <= |data| && Reaches(data, q, p)
    ensures q <= p
    decreases |data| - q
  {
    if q != p {
      ReachesForward(data, NextBoundary(data, q).value, p);
    }
  }

  /** No boundary lies between one and the next. */
  lemma {:induction false} NoneBetween(data: Octets, q: nat, start: nat, p: nat)
    requires q <= |data| && start <= |data| && Reaches(data, q, start) && NextBoundary(data, start).Some?
    requires start < p < NextBoundary(data, start).value
    ensures !Reaches(data, q, p)
    decreases |data| - q
  {
    if Reaches(data, q, p) {
      ReachesForward(data, q, start);
      if q == start {
        ReachesForward(data, NextBoundary(data, q).value, p);
      } else {
        NoneBetween(data, NextBoundary(data, q).value, start, p);
      }
    }
  }

  /** Inside a frame, behind its header, the position is short of the next boundary exactly when payload
      bytes are left: a frame all of whose bytes have been read may still be held at its end. */
  lemma StrictlyInside(data: Octets, start: nat, at: nat, key: Option<Octets>, remaining: nat, maskPos: nat)
    requires InsideFrame(data, start, at, key, remaining, maskPos) && at <= |data|
    ensures !IsBoundary(data, at) <==> data[at..Clamp(at + remaining, data)] != []
  {
    EndOfFrame(data, start, at, key, remaining, maskPos);
    if at < Clamp(at + remaining, data) {
      assert NextBoundary(data, start) == Some(Clamp(at + remaining, data));
      NoneBetween(data, 0, start, at);
    }
  }

  /** For one, an empty text frame: the turn that opens it leaves nothing to read in it. */
  lemma HeldAtItsEnd()
    ensures var text := Header(true, false, false, false, TEXT, None);
            NextTurn(View([], Encode(text, []), CONTINUATION, []), false) == Opened(View([], [], TEXT, []), TEXT)
  {
    var f := Frame(Header(true, false, false, false, TEXT, None), []);
    FrameReadBack(f, []);
    assert Encode(f.header, f.payload) + [] == Encode(f.header, f.payload);
  }

  /** A reader that stops behind the header of a frame, as it does at a Close or a masking violation, is
      left at a frame boundary exactly when that frame has no payload. */
  lemma StoppedBehindHeader(data: Octets, start: nat)
    requires IsBoundary(data, start) && ParseHeader(data[start..]).Some?
    ensures var p := ParseHeader(data[start..]).value;
            IsBoundary(data, start + p.size) <==> Payload(p, data[start..]) == []
  {
    var p := ParseHeader(data[start..]).value;
    FrameAt(data, start);
    if Payload(p, data[start..]) != [] {
      NoneBetween(data, 0, start, start + p.size);
    }
  }

  /** No boundary lies behind one at which no header can be read. */
  lemma {:induction false} NoneBeyond(data: Octets, q: nat, start: nat, p: nat)
    requires q <= |data| && start <= |data| && Reaches(data, q, start) && NextBoundary(data, start) == None
    requires start < p
    ensures !Reaches(data, q, p)
    decreases |data| - q
  {
    if q != start && Reaches(data, q, p) {
      ReachesForward(data, q, start);
      NoneBeyond(data, NextBoundary(data, q).value, start, p);
    }
  }

  /** What is left to read from a boundary on, where reading ends: nothing at all, or a frame without payload. */
  predicate EndsClean(s: Octets) {
    match ParseHeader(s)
    case None => s == []
    case Some(p) => Payload(p, s) == []
  }

  /** Where reading from a boundary met the end of the stream instead of a header, and consumed all, or
      stopped behind the header, it stands at a boundary exactly when that is clean. */
  lemma StoppedExactly(data: Octets, start: nat, at: nat)
    requires IsBoundary(data, start)
    requires at == match ParseHeader(data[start..]) case None => |data| case Some(p) => start + p.size
    ensures IsBoundary(data, at) <==> EndsClean(data[start..])
  {
    if ParseHeader(data[start..]).Some? {
      StoppedBehindHeader(data, start);
    } else if start < |data| {
      NoneBeyond(data, 0, start, at);
    }
  }

  lemma EmptyText()
    ensures Messages([0x81, 0x00], false, CONTINUATION) == [Message(TEXT, [])]
  {
    var text := Frame(Header(true, false, false, false, TEXT, None), []);
    assert FirstByte(text.header) == 0x81 && ToByte(0) == 0;
    assert Encode(text.header, []) == [0x81, 0x00];
    CutOff(text, 2, false, CONTINUATION);
    assert |EncodeHeader(text.header, 0)| == 2 && Encode(text.header, [])[..2] == [0x81, 0x00];
  }

  /** After a Close frame with a payload the reader stands inside that frame: calling it again takes
      the payload for a frame. Here a Close whose two payload bytes read as an empty text frame. */
  lemma PayloadOfCloseReadAsFrame()
    ensures var close := Frame(Header(true, false, false, false, CLOSE, None), [0x81, 0x00]);
            && FrameOk(close)
            && Messages(Encode(close.header, close.payload), false, CONTINUATION) == []
            && Messages(Encode(close.header, close.payload)[2..], false, CONTINUATION) == [Message(TEXT, [])]
  {
    var f := Frame(Header(true, false, false, false, CLOSE, None), [0x81, 0x00]);
    var s := Encode(f.header, f.payload);
    OneFrame(f, [], false, CONTINUATION);
    assert s + [] == s;
    assert |EncodeHeader(f.header, 2)| == 2 && s[2..] == [0x81, 0x00];
    EmptyText();
  }
}
