/** Whole runs of a WebSocket connection: many goroutines writing under the write lock, and a peer
    reading everything they wrote. */
module WsEndToEnd {
  import opened Bytes
  import opened Streams
  import opened WsFrames
  import opened WsStream
  import opened WsConn

  // ----- reading to the end -----

  /** Repeated Receive: every message of the stream, in order, then end of file. */
  method ReceiveUntilEnd(c: Conn) returns (ms: seq<Message>)
    requires c.Valid() && c.frameReader == null
    modifies c, c.source
    ensures c.Valid() && ms == Queue(old(c.Now()), c.server)
    ensures c.sent == SentAndOwed(old(c.Now()), c.server) && (old(c.Aligned()) ==> c.Stopped())
  {
    ms := [];
    ghost var queue, owed, aligned := Queue(c.Now(), c.server), SentAndOwed(c.Now(), c.server), c.Aligned();
    ghost var left := queue;
    assert ms + left == queue;
    while true
      invariant c.Valid() && c.frameReader == null
      invariant left == Queue(c.Now(), c.server) && SentAndOwed(c.Now(), c.server) == owed
      invariant queue == ms + left
      invariant aligned ==> c.Aligned()
      decreases |left|
    {
      var m := c.Receive();
      if m.None? {
        return;
      }
      left := Queue(c.Now(), c.server);
      Associative(ms, [m.value], left);
      ms := ms + [m.value];
    }
  }

  /** One Read into a new buffer of the given size. */
  method ReadPiece(c: Conn, size: nat) returns (piece: Octets, eof: bool)
    requires c.Valid()
    modifies c, c.source, c.frameReader
    ensures c.Valid() && |piece| <= size
    ensures c.frameReader != null && c.frameReader != old(c.frameReader) ==> fresh(c.frameReader)
    ensures if eof then
              && Stream(old(c.Now()), c.server) == [] && c.sent == SentAndOwed(old(c.Now()), c.server)
              && (old(c.Aligned()) ==> c.Stopped())
            else
              && Stream(old(c.Now()), c.server) == piece + Stream(c.Now(), c.server) && (|piece| > 0 || size == 0)
              && SentAndOwed(c.Now(), c.server) == SentAndOwed(old(c.Now()), c.server)
              && (old(c.Aligned()) ==> c.Aligned())
  {
    ghost var v := c.Now();
    var buf := new bv8[size];
    assert c.Now() == v;
    var n: nat;
    n, eof := c.Read(buf);
    piece := buf[..n];
  }

  /** Repeated Read with buffers of any sizes: the bytes returned, in order, are the payload bytes of
      the stream, up to where the reading stopped or all of them when end of file was met. */
  method ReadWithSizes(c: Conn, sizes: seq<nat>) returns (bytes: Octets, eof: bool)
    requires c.Valid() && c.frameReader == null
    modifies c, c.source
    ensures c.Valid()
    ensures if eof then
              && bytes == Stream(old(c.Now()), c.server) && c.sent == SentAndOwed(old(c.Now()), c.server)
              && (old(c.Aligned()) ==> c.Stopped())
            else
              && Stream(old(c.Now()), c.server) == bytes + Stream(c.Now(), c.server)
              && SentAndOwed(c.Now(), c.server) == SentAndOwed(old(c.Now()), c.server)
              && (old(c.Aligned()) ==> c.Aligned())
  {
    bytes, eof := [], false;
    ghost var stream, owed, aligned := Stream(c.Now(), c.server), SentAndOwed(c.Now(), c.server), c.Aligned();
    ghost var left := stream;
    for i := 0 to |sizes|
      invariant c.Valid() && (c.frameReader != null ==> fresh(c.frameReader))
      invariant left == Stream(c.Now(), c.server) && SentAndOwed(c.Now(), c.server) == owed
      invariant stream == bytes + left
      invariant aligned ==> c.Aligned()
    {
      var piece;
      piece, eof := ReadPiece(c, sizes[i]);
      if eof {
        return;
      }
      left := Stream(c.Now(), c.server);
      Associative(bytes, piece, left);
      bytes := bytes + piece;
    }
  }

  datatype Call = ReadInto(size: nat) | ReceiveNext

  /** Any mix of Read and Receive calls leaves the stream at a frame boundary or inside the current frame
      with the matching mask position, until one has met end of file; that leaves it at a boundary exactly
      when the stream ended cleanly. */
  method MixedCalls(c: Conn, calls: seq<Call>) returns (eof: bool)
    requires c.Valid() && c.frameReader == null && c.Aligned()
    modifies c, c.source
    ensures c.Valid() && if eof then c.Stopped() else c.Aligned()
  {
    eof := false;
    for i := 0 to |calls|
      invariant c.Valid() && c.Aligned() && (c.frameReader != null ==> fresh(c.frameReader))
    {
      match calls[i]
      case ReadInto(size) =>
        var piece;
        piece, eof := ReadPiece(c, size);
        if eof {
          return;
        }
      case ReceiveNext =>
        var m := c.Receive();
        if m.None? {
          return true;
        }
    }
  }

  // ----- writing under the lock -----

  /** How far the goroutine that holds the write lock has got with its frame. */
  datatype Stage = Unlocked | Locked | HeaderWritten | BodyWritten | Flushed

  /** The writing side of a connection. `log` lists the frames in the order their writers took the lock;
      the last one is the frame of the current holder, unless the lock is free. */
  datatype Writers = Writers(
    server: bool, flushed: Octets, buffered: Octets, holder: Option<nat>, stage: Stage, log: seq<Frame>)

  ghost predicate Start(w: Writers) {
    w.flushed == [] && w.buffered == [] && w.holder == None && w.stage == Unlocked && w.log == []
  }

  /** What NewFrameWriter makes of an opcode: final, no reserved bits, masked exactly by clients. */
  predicate OwnFrame(f: Frame, server: bool) {
    && f.header.fin && !f.header.rsv1 && !f.header.rsv2 && !f.header.rsv3
    && f.header.key.Some? == !server && KeyOk(f.header)
  }

  predicate AllOwn(fs: seq<Frame>, server: bool) {
    forall i | 0 <= i < |fs| :: OwnFrame(fs[i], server)
  }

  ghost predicate Lock(w: Writers, x: Writers, t: nat, f: Frame) {
    && w.stage == Unlocked && OwnFrame(f, w.server)
    && x == w.(holder := Some(t), stage := Locked, log := w.log + [f])
  }

  ghost predicate WriteHeader(w: Writers, x: Writers, t: nat) {
    && w.stage == Locked && w.holder == Some(t) && w.log != []
    && var f := w.log[|w.log| - 1];
    x == w.(stage := HeaderWritten, buffered := w.buffered + EncodeHeader(f.header, |f.payload|))
  }

  ghost predicate WriteBody(w: Writers, x: Writers, t: nat) {
    && w.stage == HeaderWritten && w.holder == Some(t) && w.log != [] && KeyOk(w.log[|w.log| - 1].header)
    && var f := w.log[|w.log| - 1];
    x == w.(stage := BodyWritten, buffered := w.buffered + Cover(f.header.key, f.payload, 0))
  }

  /** The buffered writer passes k bytes on, whenever it likes. */
  ghost predicate Spill(w: Writers, x: Writers, k: nat) {
    k <= |w.buffered| && x == w.(flushed := w.flushed + w.buffered[..k], buffered := w.buffered[k..])
  }

  ghost predicate Flush(w: Writers, x: Writers, t: nat) {
    && w.stage == BodyWritten && w.holder == Some(t)
    && x == w.(stage := Flushed, flushed := w.flushed + w.buffered, buffered := [])
  }

  ghost predicate Unlock(w: Writers, x: Writers, t: nat) {
    w.stage == Flushed && w.holder == Some(t) && x == w.(stage := Unlocked, holder := None)
  }

  ghost predicate Step(w: Writers, x: Writers) {
    || (exists t, f :: Lock(w, x, t, f))
    || (exists t :: WriteHeader(w, x, t) || WriteBody(w, x, t) || Flush(w, x, t) || Unlock(w, x, t))
    || (exists k :: Spill(w, x, k))
  }

  ghost predicate Run(states: seq<Writers>) {
    && states != [] && Start(states[0])
    && forall i | 0 < i < |states| :: Step(states[i - 1], states[i])
  }

  /** The part of the holder's frame that has been handed to the buffered writer. */
  ghost function Partial(w: Writers): Octets
    requires KeysOk(w.log) && (w.stage != Unlocked ==> w.log != [])
  {
    if w.stage == Unlocked || w.stage == Locked then [] else
    var f := w.log[|w.log| - 1];
    if w.stage == HeaderWritten then EncodeHeader(f.header, |f.payload|) else Encode(f.header, f.payload)
  }

  /** The frames whose writers have released the lock. */
  ghost function Released(w: Writers): seq<Frame> {
    if w.stage == Unlocked || w.log == [] then w.log else w.log[..|w.log| - 1]
  }

  ghost predicate Inv(w: Writers) {
    && AllOwn(w.log, w.server)
    && (w.stage == Unlocked <==> w.holder == None) && (w.stage != Unlocked ==> w.log != [])
    && w.flushed + w.buffered == EncodeAll(Released(w)) + Partial(w)
    && (w.stage == Unlocked || w.stage == Flushed ==> w.buffered == [])
  }

  /** While the lock is held, the log is the released frames and the holder's. */
  lemma HolderIsLast(w: Writers)
    requires AllOwn(w.log, w.server) && w.stage != Unlocked && w.log != []
    ensures KeysOk(Released(w)) && w.log == Released(w) + [w.log[|w.log| - 1]]
    ensures var f := w.log[|w.log| - 1];
            KeyOk(f.header) && EncodeAll(w.log) == EncodeAll(Released(w)) + Encode(f.header, f.payload)
  {
    FrontAndLast(w.log);
    EncodeAllAppend(Released(w), w.log[|w.log| - 1]);
  }

  lemma LockKeeps(w: Writers, x: Writers, t: nat, f: Frame)
    requires Inv(w) && Lock(w, x, t, f)
    ensures Inv(x)
  {
    assert Released(x) == w.log;
  }

  lemma HeaderKeeps(w: Writers, x: Writers, t: nat)
    requires Inv(w) && WriteHeader(w, x, t)
    ensures Inv(x)
  {
    var released, header := EncodeAll(Released(w)), Partial(x);
    assert w.flushed + w.buffered == released by {
      assert Partial(w) == [];
    }
    Associative(w.flushed, w.buffered, header);
  }

  lemma BodyKeeps(w: Writers, x: Writers, t: nat)
    requires Inv(w) && WriteBody(w, x, t)
    ensures Inv(x)
  {
    var f := w.log[|w.log| - 1];
    var body := Cover(f.header.key, f.payload, 0);
    Associative(w.flushed, w.buffered, body);
    Associative(EncodeAll(Released(w)), Partial(w), body);
  }

  lemma UnlockKeeps(w: Writers, x: Writers, t: nat)
    requires Inv(w) && Unlock(w, x, t)
    ensures Inv(x)
  {
    HolderIsLast(w);
  }

  lemma FlushKeeps(w: Writers, x: Writers, t: nat)
    requires Inv(w) && Flush(w, x, t)
    ensures Inv(x)
  {
    assert x.flushed + x.buffered == w.flushed + w.buffered;
  }

  lemma SpillKeeps(w: Writers, x: Writers, k: nat)
    requires Inv(w) && Spill(w, x, k)
    ensures Inv(x)
  {
    Parts(w.buffered, k);
    Associative(w.flushed, w.buffered[..k], w.buffered[k..]);
  }

  lemma StepKeepsInv(w: Writers, x: Writers)
    requires Inv(w) && Step(w, x)
    ensures Inv(x)
  {
    if t, f :| Lock(w, x, t, f) {
      LockKeeps(w, x, t, f);
    } else if t :| WriteHeader(w, x, t) {
      HeaderKeeps(w, x, t);
    } else if t :| WriteBody(w, x, t) {
      BodyKeeps(w, x, t);
    } else if t :| Unlock(w, x, t) {
      UnlockKeeps(w, x, t);
    } else if t :| Flush(w, x, t) {
      FlushKeeps(w, x, t);
    } else {
      var k :| Spill(w, x, k);
      SpillKeeps(w, x, k);
    }
  }

  /** In every state of every interleaving the bytes passed on are a prefix of the whole frames in lock
      order, and exactly those frames whenever the lock is free. */
  lemma {:induction false} WireIsWholeFrames(states: seq<Writers>)
    requires Run(states)
    ensures var w := states[|states| - 1];
            && Inv(w)
            && w.flushed <= EncodeAll(w.log)
            && (w.stage == Unlocked ==> w.flushed == EncodeAll(w.log))
  {
    var n := |states|;
    var w := states[n - 1];
    if n > 1 {
      WireIsWholeFrames(states[..n - 1]);
      StepKeepsInv(states[n - 2], w);
    }
    HolderPrefix(w);
  }

  lemma HolderPrefix(w: Writers)
    requires Inv(w)
    ensures w.flushed <= EncodeAll(w.log)
  {
    Prefix(w.flushed, w.buffered);
    if w.stage != Unlocked {
      HolderIsLast(w);
      var sofar, f := Partial(w), w.log[|w.log| - 1];
      var whole := Encode(f.header, f.payload);
      assert sofar <= whole;
      Parts(whole, |sofar|);
      Associative(EncodeAll(Released(w)), sofar, whole[|sofar|..]);
      Prefix(w.flushed + w.buffered, whole[|sofar|..]);
    }
  }

  /** The data messages among the frames before the first Close. */
  function DataBeforeClose(fs: seq<Frame>, last: bv8): seq<Message> {
    if fs == [] || fs[0].header.opcode == CLOSE then []
    else if fs[0].header.opcode == PING || fs[0].header.opcode == PONG then DataBeforeClose(fs[1..], last)
    else [Message(DeliveredOpcode(fs[0].header.opcode, last), fs[0].payload)]
         + DataBeforeClose(fs[1..], Remember(fs[0].header.opcode, last))
  }

  lemma {:induction false} PeerAccepts(fs: seq<Frame>, server: bool, last: bv8)
    requires FromPeer(fs, server)
    ensures Delivered(fs, server, last) == DataBeforeClose(fs, last)
  {
    if fs != [] {
      var h := fs[0].header;
      assert h.key.Some? == server;
      PeerAccepts(fs[1..], server, if KindOf(h, server).Data? then Remember(h.opcode, last) else last);
    }
  }

  lemma LogIsPeers(log: seq<Frame>, n: nat, server: bool)
    requires AllOwn(log, !server) && KeysOk(log)
    ensures FromPeer(Arrived(log, n), server)
  {
    var gs := Arrived(log, n);
    forall f | f in gs
      ensures f.header.key.Some? == server
    {
      var i :| 0 <= i < |gs| && gs[i] == f;
      assert OwnFrame(log[i], !server);
    }
  }

  /** What the other end makes of the bytes passed on, wherever they are cut off. */
  lemma PeerSide(states: seq<Writers>, wire: Octets, server: bool)
    requires Run(states) && FramesOk(states[|states| - 1].log)
    requires var w := states[|states| - 1]; wire <= w.flushed && server == !w.server
    ensures var w := states[|states| - 1];
            && Messages(wire, server, CONTINUATION) == DataBeforeClose(Arrived(w.log, |wire|), CONTINUATION)
            && (w.stage == Unlocked && wire == w.flushed ==> Arrived(w.log, |wire|) == w.log)
  {
    WireIsWholeFrames(states);
    var w := states[|states| - 1];
    assert wire == EncodeAll(w.log)[..|wire|];
    CutStream(w.log, |wire|, server, CONTINUATION);
    LogIsPeers(w.log, |wire|, server);
    PeerAccepts(Arrived(w.log, |wire|), server, CONTINUATION);
    AllArrived(w.log);
  }

  /** End to end: whenever the writers are stopped, and wherever the bytes they have passed on are cut off,
      the other end's repeated Receive returns exactly the data messages before the first Close that have
      arrived by then, in lock order; all of them when the lock is free and nothing is cut off. */
  method PeerReceives(ghost states: seq<Writers>, wire: Octets, server: bool, keys: nat -> Key)
    returns (ms: seq<Message>)
    requires Run(states) && FramesOk(states[|states| - 1].log)
    requires var w := states[|states| - 1]; wire <= w.flushed && server == !w.server
    ensures var w := states[|states| - 1];
            && ms == DataBeforeClose(Arrived(w.log, |wire|), CONTINUATION)
            && (w.stage == Unlocked && wire == w.flushed ==> ms == DataBeforeClose(w.log, CONTINUATION))
  {
    PeerSide(states, wire, server);
    var source := new ByteSource(wire);
    var c := new Conn(server, source, keys);
    assert source.Rest() == wire;
    ms := ReceiveUntilEnd(c);
  }

  /** The payload bytes of the data frames before the first Close, whatever their opcodes. */
  function DataBytes(fs: seq<Frame>): Octets {
    if fs == [] || fs[0].header.opcode == CLOSE then []
    else if fs[0].header.opcode == PING || fs[0].header.opcode == PONG then DataBytes(fs[1..])
    else fs[0].payload + DataBytes(fs[1..])
  }

  lemma {:induction false} BytesOfMessages(fs: seq<Frame>, last: bv8)
    ensures Joined(DataBeforeClose(fs, last)) == DataBytes(fs)
  {
    if fs != [] && fs[0].header.opcode != CLOSE {
      var h, rest := fs[0].header, fs[1..];
      if h.opcode == PING || h.opcode == PONG {
        BytesOfMessages(rest, last);
      } else {
        BytesOfMessages(rest, Remember(h.opcode, last));
        assert DataBeforeClose(fs, last)[1..] == DataBeforeClose(rest, Remember(h.opcode, last));
      }
    }
  }

  /** End to end, with Read: buffers of any sizes take the bytes of those data frames, in order; all that
      have arrived once end of file is met. */
  method PeerReads(ghost states: seq<Writers>, wire: Octets, server: bool, keys: nat -> Key, sizes: seq<nat>)
    returns (bytes: Octets, eof: bool)
    requires Run(states) && FramesOk(states[|states| - 1].log)
    requires var w := states[|states| - 1]; wire <= w.flushed && server == !w.server
    ensures var all := DataBytes(Arrived(states[|states| - 1].log, |wire|));
            if eof then bytes == all else bytes <= all
  {
    PeerSide(states, wire, server);
    ghost var all := DataBytes(Arrived(states[|states| - 1].log, |wire|));
    BytesOfMessages(Arrived(states[|states| - 1].log, |wire|), CONTINUATION);
    var source := new ByteSource(wire);
    var c := new Conn(server, source, keys);
    assert source.Rest() == wire && [] + all == all;
    assert Stream(c.Now(), server) == all;
    bytes, eof := ReadWithSizes(c, sizes);
    if !eof {
      Prefix(bytes, Stream(c.Now(), server));
    }
  }

  predicate IsData(h: Header) {
    h.opcode != CLOSE && h.opcode != PING && h.opcode != PONG
  }

  function WithoutEmpty(fs: seq<Frame>): seq<Frame> {
    if fs == [] then []
    else if IsData(fs[0].header) && fs[0].payload == [] then WithoutEmpty(fs[1..])
    else [fs[0]] + WithoutEmpty(fs[1..])
  }

  /** Data frames without payload change no byte of what is read. */
  lemma {:induction false} EmptyInvisible(fs: seq<Frame>)
    ensures DataBytes(WithoutEmpty(fs)) == DataBytes(fs)
  {
    if fs != [] {
      EmptyInvisible(fs[1..]);
      if !(IsData(fs[0].header) && fs[0].payload == []) {
        assert WithoutEmpty(fs)[1..] == WithoutEmpty(fs[1..]);
      }
    }
  }

  /** Nor does it matter how the bytes are cut into frames. */
  lemma {:induction false} CutsInvisible(fs: seq<Frame>, f: Frame, rest: seq<Frame>, k: nat, h: Header)
    requires IsData(f.header) && IsData(h) && k <= |f.payload|
    ensures DataBytes(fs + [Frame(f.header, f.payload[..k]), Frame(h, f.payload[k..])] + rest)
            == DataBytes(fs + [f] + rest)
  {
    var a, b := Frame(f.header, f.payload[..k]), Frame(h, f.payload[k..]);
    if fs == [] {
      assert (fs + [a, b] + rest)[1..] == [b] + rest && ([b] + rest)[1..] == rest && (fs + [f] + rest)[1..] == rest;
      Associative(a.payload, b.payload, DataBytes(rest));
      Parts(f.payload, k);
    } else {
      CutsInvisible(fs[1..], f, rest, k, h);
      assert (fs + [a, b] + rest)[1..] == fs[1..] + [a, b] + rest && (fs + [f] + rest)[1..] == fs[1..] + [f] + rest;
    }
  }
}
