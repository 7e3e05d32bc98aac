/** net/websocket: the frame reader and writer of hybi.go and the connection of websocket.go, as objects
    that are updated in place, proved against the stream meaning of WsStream. */
module WsConn {
  import opened Bytes
  import opened Streams
  import opened WsFrames
  import opened WsStream

  type Key = k: Octets | |k| == 4 witness [0, 0, 0, 0]

  /** hybiFrameReader: the header, the mask position, and the bytes its limited reader may still take. */
  class FrameReader {
    const source: ByteSource
    var header: Header
    var pos: nat
    var remaining: nat

    ghost predicate Valid()
      reads this, source
    {
      source.Valid() && KeyOk(header)
    }

    ghost function End(): (e: nat)
      reads this, source
      requires Valid()
      ensures source.pos <= e <= |source.data|
    {
      Clamp(source.pos + remaining, source.data)
    }

    /** The unmasked payload not yet read. */
    ghost function Rest(): (rest: Octets)
      reads this, source
      requires Valid()
      ensures |rest| == End() - source.pos
    {
      Cover(header.key, source.data[source.pos..End()], pos)
    }

    /** The source stands inside this frame, which began at `start`. */
    ghost predicate Inside(start: nat)
      reads this, source
    {
      InsideFrame(source.data, start, source.pos, header.key, remaining, pos)
    }

    /** The source stands right behind the header of the frame that starts at `start`. */
    ghost predicate Opens(start: nat)
      reads this, source
    {
      && start <= |source.data| && ParseHeader(source.data[start..]).Some?
      && var p := ParseHeader(source.data[start..]).value;
         source.pos == start + p.size && header == p.header && pos == 0 && remaining == p.length
    }

    lemma OpensAt(start: nat)
      requires Valid() && Opens(start)
      ensures var s := source.data[start..];
              var p := ParseHeader(s).value;
              && Rest() == Payload(p, s) && source.data[End()..] == After(p, s)
              && (IsBoundary(source.data, start) ==> Inside(start) && IsBoundary(source.data, End()))
    {
      var p := ParseHeader(source.data[start..]).value;
      FrameAt(source.data, start);
      assert End() == Clamp(start + p.size + p.length, source.data);
    }

    constructor (source: ByteSource, header: Header, length: nat)
      requires source.Valid() && KeyOk(header)
      ensures Valid() && this.source == source && this.header == header && pos == 0 && remaining == length
    {
      this.source, this.header, this.pos, this.remaining := source, header, 0, length;
    }

    method Read(msg: array<bv8>) returns (n: nat, eof: bool)
      requires Valid()
      modifies this`pos, this`remaining, source, msg
      ensures Valid() && n <= msg.Length && n <= old(remaining)
      ensures source.pos == old(source.pos) + n && remaining == old(remaining) - n
      ensures header.key.Some? ==> pos == old(pos) + n
      ensures header.key.None? ==> pos == old(pos)
      ensures End() == old(End())
      ensures eof ==> n == 0 && Rest() == old(Rest()) == [] && source.pos == End()
      ensures !eof ==> old(Rest()) == msg[..n] + Rest() && (n > 0 || msg.Length == 0)
      ensures msg[n..] == old(msg[n..])
      ensures forall j | 0 <= j < n ::
                msg[j] == if header.key.None? then source.data[old(source.pos) + j]
                          else source.data[old(source.pos) + j] ^ header.key.value[(old(pos) + j) % 4]
    {
      if remaining == 0 {
        return 0, true;
      }
      ghost var p, e, maskPos := source.pos, End(), pos;
      n, eof := source.Read(msg, if msg.Length < remaining then msg.Length else remaining);
      remaining := remaining - n;
      if eof {
        return;
      }
      ghost var read, after := msg[..n], source.data[source.pos..e];
      Between(source.data, p, source.pos, e);
      if header.key.Some? {
        MaskSplit(header.key.value, read, after, maskPos);
        Unmask(msg, n);
      }
    }

    /** Read, on a frame that began at `start`. */
    method ReadInside(msg: array<bv8>, ghost start: nat) returns (n: nat, eof: bool)
      requires Valid()
      modifies this`pos, this`remaining, source, msg
      ensures Valid() && n <= msg.Length && source.pos >= old(source.pos) && End() == old(End())
      ensures eof ==> n == 0 && Rest() == old(Rest()) == [] && source.pos == End()
      ensures !eof ==> old(Rest()) == msg[..n] + Rest() && (n > 0 || msg.Length == 0)
      ensures source.pos < End() <==> Rest() != []
      ensures old(Inside(start)) ==> Inside(start) && (eof ==> IsBoundary(source.data, source.pos))
    {
      ghost var inside, at, left, maskPos := Inside(start), source.pos, remaining, pos;
      if inside {
        EndOfFrame(source.data, start, at, header.key, left, maskPos);
      }
      n, eof := Read(msg);
      if inside {
        InsideMoves(source.data, start, at, header.key, left, maskPos, n);
      }
    }

    /** The XOR loop: in place, advancing the mask position. */
    method Unmask(msg: array<bv8>, n: nat)
      requires n <= msg.Length && header.key.Some? && |header.key.value| == 4
      modifies this`pos, msg
      ensures pos == old(pos) + n
      ensures msg[..n] == Mask(header.key.value, old(msg[..n]), old(pos)) && msg[n..] == old(msg[n..])
      ensures forall j | 0 <= j < n :: msg[j] == old(msg[j]) ^ header.key.value[(old(pos) + j) % 4]
    {
      ghost var raw, p := msg[..], pos;
      var key := header.key.value;
      for i := 0 to n
        invariant pos == p + i
        invariant forall j | 0 <= j < i :: msg[j] == raw[j] ^ key[(p + j) % 4]
        invariant msg[i..] == raw[i..]
      {
        assert msg[i] == msg[i..][0] == raw[i];
        msg[i] := msg[i] ^ key[pos % 4];
        assert msg[i + 1..] == raw[i + 1..];
        pos := pos + 1;
      }
      assert msg[..n] == Mask(key, raw[..n], p);
    }

    /** io.ReadFull into a buffer of `limit` bytes: stops early only at the end of the payload. */
    method ReadFull(limit: nat) returns (data: Octets)
      requires Valid()
      modifies this`pos, this`remaining, source
      ensures Valid() && End() == old(End())
      ensures |data| <= limit && old(Rest()) == data + Rest() && (|data| == limit || Rest() == [])
    {
      data := [];
      var eof := false;
      ghost var all, end := Rest(), End();
      while |data| < limit && !eof
        invariant Valid() && End() == end
        invariant |data| <= limit && all == data + Rest()
        invariant eof ==> Rest() == []
        decreases limit - |data|, if eof then 0 else 1
      {
        var buf := new bv8[limit - |data|];
        var n: nat;
        n, eof := Read(buf);
        Associative(data, buf[..n], Rest());
        data := data + buf[..n];
      }
    }

    /** ioutil.ReadAll, and io.Copy to Discard when the result is dropped. */
    method ReadAll() returns (data: Octets)
      requires Valid()
      modifies this`pos, this`remaining, source
      ensures Valid() && End() == old(End()) && source.pos == End()
      ensures data == old(Rest())
    {
      data := [];
      var buf := new bv8[512];
      var eof := false;
      ghost var all, end := Rest(), End();
      while !eof
        invariant Valid() && End() == end
        invariant all == data + Rest()
        invariant eof ==> Rest() == []
        decreases remaining, if eof then 0 else 1
      {
        var n: nat;
        n, eof := Read(buf);
        Associative(data, buf[..n], Rest());
        data := data + buf[..n];
      }
      assert |Rest()| == End() - source.pos;
    }
  }

  /** The first i extra length bytes, the top bit of an eight-byte length cleared. */
  function LengthPrefix(s: Octets, lengthFields: nat, i: nat): Octets
    requires i <= |s|
  {
    if lengthFields == 8 && i > 0 then [s[0] & 0x7f] + s[1..i] else s[..i]
  }

  lemma LengthPrefixNext(s: Octets, lengthFields: nat, i: nat)
    requires i < |s|
    ensures var octet := if lengthFields == 8 && i == 0 then s[i] & 0x7f else s[i];
            LengthPrefix(s, lengthFields, i + 1) == LengthPrefix(s, lengthFields, i) + [octet]
  {
    assert s[..i + 1] == s[..i] + [s[i]];
    if i > 0 {
      assert s[1..i + 1] == s[1..i] + [s[i]];
    } else {
      assert s[1..1] == [];
    }
  }

  lemma LengthPrefixWhole(s: Octets, second: bv8)
    requires 0 < Announced(second) <= |s|
    ensures var n := Announced(second);
            FromBigEndian(LengthPrefix(s, n, n)) == LengthOf(second, s[..n])
  {
    var n := Announced(second);
    TakeSlice(s, n, 1, n);
    assert s[..n][1..n] == s[..n][1..];
  }

  /** The extra length bytes, accumulated into a number; the top bit of an eight-byte length is cleared. */
  method ReadLength(source: ByteSource, second: bv8) returns (length: Option<nat>)
    requires source.Valid()
    modifies source
    ensures source.Valid()
    ensures var n := Announced(second);
            if |old(source.Rest())| < n then length == None && source.pos == |source.data|
            else source.pos == old(source.pos) + n && length == Some(LengthOf(second, old(source.Rest())[..n]))
  {
    ghost var s, p := source.Rest(), source.pos;
    var low := second & 0x7f;
    if low <= 125 {
      return Some(FromByte(low));
    }
    var lengthFields := if low == 126 then 2 else 8;
    var l: nat := 0;
    for i := 0 to lengthFields
      invariant source.Valid() && source.pos == p + i && i <= |s|
      invariant l == FromBigEndian(LengthPrefix(s, lengthFields, i))
    {
      var b := source.ReadByte();
      if b.None? {
        return None;
      }
      assert b.value == s[i];
      var octet := b.value;
      if lengthFields == 8 && i == 0 {
        octet := octet & 0x7f;
      }
      LengthPrefixNext(s, lengthFields, i);
      FromBigEndianMore(LengthPrefix(s, lengthFields, i), octet);
      l := l * 256 + FromByte(octet);
    }
    LengthPrefixWhole(s, second);
    length := Some(l);
  }

  /** The four bytes of a masking key. */
  method ReadKey(source: ByteSource) returns (key: Option<Octets>)
    requires source.Valid()
    modifies source
    ensures source.Valid()
    ensures if |old(source.Rest())| < 4 then key == None && source.pos == |source.data|
            else source.pos == old(source.pos) + 4 && key == Some(old(source.Rest())[..4])
  {
    ghost var s := source.Rest();
    ghost var p := source.pos;
    var k: Octets := [];
    for i := 0 to 4
      invariant source.Valid() && source.pos == p + i && k == s[..i]
    {
      var b := source.ReadByte();
      if b.None? {
        return None;
      }
      k := k + [b.value];
    }
    key := Some(k);
  }

  /** NewFrameReader: reads one header byte by byte; null at end of file. */
  method NewFrameReader(source: ByteSource) returns (frame: FrameReader?)
    requires source.Valid()
    modifies source
    ensures source.Valid()
    ensures match ParseHeader(old(source.Rest()))
            case None => frame == null && source.pos == |source.data|
            case Some(p) =>
              && frame != null && fresh(frame) && frame.Valid() && frame.source == source
              && frame.header == p.header && frame.pos == 0 && frame.remaining == p.length
              && source.pos == old(source.pos) + p.size
  {
    ghost var s := source.Rest();
    // First byte: FIN, RSV1, RSV2, RSV3, opcode.
    var first := source.ReadByte();
    if first.None? {
      return null;
    }
    var b := first.value;
    var fin, rsv1, rsv2, rsv3 := (b >> 7) & 1 != 0, (b >> 6) & 1 != 0, (b >> 5) & 1 != 0, (b >> 4) & 1 != 0;
    var opcode := b & 0x0f;
    // Second byte: mask bit and payload length.
    var second := source.ReadByte();
    if second.None? {
      return null;
    }
    ghost var n := 2 + Announced(second.value);
    assert s[0] == b && s[1] == second.value;
    assert source.Rest() == s[2..];
    var length := ReadLength(source, second.value);
    if length.None? {
      return null;
    }
    assert s[2..][..n - 2] == s[2..n];
    assert source.Rest() == s[n..];
    var key: Option<Octets> := None;
    if second.value & 0x80 != 0 {
      key := ReadKey(source);
      if key.None? {
        return null;
      }
      assert s[n..][..4] == s[n..n + 4];
    }
    frame := new FrameReader(source, Header(fin, rsv1, rsv2, rsv3, opcode, key), length.value);
  }

  lemma FlagByte(h: Header, b: bv8)
    requires b == ((((0 | (if h.fin then 0x80 else 0)) | (if h.rsv1 then 0x40 else 0)) | (if h.rsv2 then 0x20 else 0))
                   | (if h.rsv3 then 0x10 else 0)) | h.opcode
    ensures b == FirstByte(h)
  {
  }

  method FlagsAndOpcode(h: Header) returns (b: bv8)
    ensures b == FirstByte(h)
  {
    b := 0;
    if h.fin {
      b := b | 0x80;
    }
    if h.rsv1 {
      b := b | 0x40;
    }
    if h.rsv2 {
      b := b | 0x20;
    }
    if h.rsv3 {
      b := b | 0x10;
    }
    b := b | h.opcode;
    FlagByte(h, b);
  }

  /** The extra length bytes, high byte first. */
  method LengthBytes(length: nat, lengthFields: nat) returns (s: Octets)
    ensures s == BigEndian(length, lengthFields)
  {
    s := [];
    for i := 0 to lengthFields
      invariant s == BigEndian(length, lengthFields)[..i]
    {
      BigEndianAt(length, lengthFields, i);
      s := s + [ToByte(length / Pow256(lengthFields - i - 1))];
    }
  }

  /** The second byte and the extra length bytes, as hybiFrameWriter.Write appends them. */
  method MaskAndLength(masked: bool, length: nat) returns (s: Octets)
    ensures s == [SecondByte(masked, length)] + BigEndian(length, LengthFields(length))
  {
    var b := if masked then 0x80 else 0;
    var lengthFields := 0;
    if length <= 125 {
      b := b | ToByte(length);
    } else if length < 65536 {
      b := b | 126;
      lengthFields := 2;
    } else {
      b := b | 127;
      lengthFields := 8;
    }
    s := LengthBytes(length, lengthFields);
    s := [b] + s;
  }

  method MaskedCopy(key: Octets, msg: Octets) returns (data: array<bv8>)
    requires |key| == 4
    ensures fresh(data) && data[..] == Mask(key, msg, 0)
    ensures forall i | 0 <= i < |msg| :: data[i] == msg[i] ^ key[i % 4]
  {
    data := new bv8[|msg|];
    for i := 0 to |msg|
      invariant forall j | 0 <= j < i :: data[j] == msg[j] ^ key[j % 4]
    {
      data[i] := msg[i] ^ key[i % 4];
    }
  }

  /** The frames one end writes: final, no reserved bits, and masked with the i-th key exactly by clients. */
  function OwnFrames(ms: seq<Message>, server: bool, randomKey: nat -> Key): (fs: seq<Frame>)
    ensures |fs| == |ms| && KeysOk(fs)
    ensures forall i | 0 <= i < |ms| :: fs[i].header.opcode == ms[i].opcode && fs[i].payload == ms[i].payload
  {
    seq(|ms|, i requires 0 <= i < |ms| =>
      var key := if server then None else Some(randomKey(i));
      Frame(Header(true, false, false, false, ms[i].opcode, key), ms[i].payload))
  }

  lemma OwnFramesAppend(ms: seq<Message>, m: Message, server: bool, randomKey: nat -> Key)
    ensures var h := Header(true, false, false, false, m.opcode, if server then None else Some(randomKey(|ms|)));
            && EncodeAll(OwnFrames(ms + [m], server, randomKey))
               == EncodeAll(OwnFrames(ms, server, randomKey)) + Encode(h, m.payload)
  {
    var h := Header(true, false, false, false, m.opcode, if server then None else Some(randomKey(|ms|)));
    var fs := OwnFrames(ms, server, randomKey);
    assert OwnFrames(ms + [m], server, randomKey) == fs + [Frame(h, m.payload)];
    EncodeAllAppend(fs, Frame(h, m.payload));
  }

  class Conn {
    const server: bool        // IsServerConn
    const source: ByteSource
    const randomKey: nat -> Key  // the masking keys, in the order they are drawn
    var keysDrawn: nat
    var frameReader: FrameReader?
    var remembered: bv8       // hybiFrameHandler.payloadType
    var payloadType: bv8      // Conn.PayloadType
    var wire: Octets          // all bytes written and flushed
    ghost var sent: seq<Message>  // the frames written, in order
    ghost var start: nat      // where the current frame started

    ghost predicate Valid()
      reads this, source, frameReader
    {
      && source.Valid() && start <= |source.data|
      && (frameReader != null ==> frameReader.source == source && frameReader.Valid())
      && keysDrawn == (if server then 0 else |sent|)
      && wire == EncodeAll(OwnFrames(sent, server, randomKey))
    }

    /** The connection seen with `frame` as its current frame. */
    ghost function ViewWith(frame: FrameReader?): View
      reads this, source, frame
      requires source.Valid() && (frame != null ==> frame.source == source && frame.Valid())
    {
      if frame == null then View([], source.Rest(), remembered, sent)
      else View(frame.Rest(), source.data[frame.End()..], remembered, sent)
    }

    ghost function Now(): View
      reads this, source, frameReader
      requires Valid()
    {
      ViewWith(frameReader)
    }

    /** With no current frame the stream stands at a frame boundary; otherwise inside the current frame,
        which began at `start`. */
    ghost predicate Aligned()
      reads this, source, frameReader
      requires Valid()
    {
      if frameReader == null then IsBoundary(source.data, source.pos) else frameReader.Inside(start)
    }

    /** Where end of file leaves the stream: the last frame looked for began at a boundary, `start`, and the
        stream stands at one exactly when it was clean to end there. */
    ghost predicate Stopped()
      reads this, source
    {
      && IsBoundary(source.data, start)
      && (IsBoundary(source.data, source.pos) <==> EndsClean(source.data[start..]))
    }

    constructor (server: bool, source: ByteSource, randomKey: nat -> Key)
      requires source.Valid() && source.pos == 0
      ensures Valid() && Aligned() && this.server == server && this.source == source
      ensures frameReader == null && sent == [] && remembered == 0 && payloadType == 1
    {
      this.server, this.source, this.randomKey := server, source, randomKey;
      keysDrawn, frameReader, remembered, payloadType := 0, null, CONTINUATION, TEXT;
      wire, sent, start := [], [], 0;
    }

    /** NewFrameWriter's header: final, no reserved bits, masked exactly by clients. */
    method NewFrameWriter(opcode: bv8) returns (h: Header)
      modifies `keysDrawn
      ensures h == Header(true, false, false, false, opcode, if server then None else Some(randomKey(old(keysDrawn))))
      ensures keysDrawn == old(keysDrawn) + if server then 0 else 1
    {
      var key: Option<Octets> := None;
      if !server {
        key := Some(randomKey(keysDrawn));
        keysDrawn := keysDrawn + 1;
      }
      h := Header(true, false, false, false, opcode, key);
    }

    /** hybiFrameWriter.Write and Flush. */
    method WriteFrame(h: Header, msg: Octets) returns (n: nat, badKey: bool)
      modifies `wire
      ensures badKey <==> !KeyOk(h)
      ensures if badKey then n == 0 && wire == old(wire) else n == |msg| && wire == old(wire) + Encode(h, msg)
      ensures !badKey ==>
                var at := |old(wire)| + |EncodeHeader(h, |msg|)|;
                && |wire| == at + |msg|
                && forall i | 0 <= i < |msg| ::
                     wire[at + i] == if h.key.Some? then msg[i] ^ h.key.value[i % 4] else msg[i]
    {
      var flags := FlagsAndOpcode(h);
      var rest := MaskAndLength(h.key.Some?, |msg|);
      var header := [flags] + rest;
      ghost var before, fields := wire, BigEndian(|msg|, LengthFields(|msg|));
      assert header == [flags, rest[0]] + fields;
      if h.key.Some? {
        var key := h.key.value;
        if |key| != 4 {
          return 0, true;
        }
        wire := wire + (header + key);
        var data := MaskedCopy(key, msg);
        Associative(before, header + key, data[..]);
        wire := wire + data[..];
      } else {
        wire := wire + header;
        Associative(before, header, msg);
        wire := wire + msg;
      }
      return |msg|, false;
    }

    /** Conn.Write, Codec.Send, WritePong and WriteClose all come down to this: one whole frame. */
    method Send(opcode: bv8, msg: Octets) returns (n: nat)
      requires Valid()
      modifies `wire, `sent, `keysDrawn
      ensures Valid() && n == |msg|
      ensures sent == old(sent) + [Message(opcode, msg)]
      ensures var key := if server then None else Some(randomKey(|old(sent)|));
              wire == old(wire) + Encode(Header(true, false, false, false, opcode, key), msg)
    {
      var h := NewFrameWriter(opcode);
      var badKey: bool;
      n, badKey := WriteFrame(h, msg);
      OwnFramesAppend(sent, Message(opcode, msg), server, randomKey);
      sent := sent + [Message(opcode, msg)];
    }

    method Write(msg: Octets) returns (n: nat)
      requires Valid()
      modifies `wire, `sent, `keysDrawn
      ensures Valid() && n == |msg|
      ensures sent == old(sent) + [Message(payloadType, msg)]
    {
      n := Send(payloadType, msg);
    }

    /** HandleFrame's ping and pong case: up to 125 bytes are kept for the pong, the rest is dropped. */
    method HandleControl(frame: FrameReader, ping: bool)
      requires Valid() && frameReader == null && frame.source == source && frame.Valid()
      modifies this`wire, this`sent, this`keysDrawn, frame`pos, frame`remaining, source
      ensures Valid() && frame.Valid() && source.pos == old(frame.End())
      ensures sent == old(sent) + if ping then [Message(PONG, Truncate(old(frame.Rest())))] else []
    {
      ghost var payload := frame.Rest();
      var b := frame.ReadFull(MAX_CONTROL);
      assert b == Truncate(payload);
      var _ := frame.ReadAll();
      if ping {
        var _ := Send(PONG, b);
      }
    }

    /** HandleFrame's switch on the opcode. */
    method Dispatch(frame: FrameReader) returns (next: FrameReader?, eof: bool)
      requires Valid() && frameReader == null && frame.source == source && frame.Valid()
      requires !KindOf(frame.header, server).Violation?
      modifies this`wire, this`sent, this`keysDrawn, this`remembered, frame, source
      ensures Valid() && frame.Valid() && (eof ==> next == null)
      ensures frame.header == old(frame.header).(opcode := frame.header.opcode)
      ensures match KindOf(old(frame.header), server)
              case Violation => false
              case Closing => eof && source.pos == old(source.pos) && remembered == old(remembered) && sent == old(sent)
              case Control =>
                && !eof && next == null && source.pos == old(frame.End()) && remembered == old(remembered)
                && sent == old(sent) + ReplyTo(old(frame.header), old(frame.Rest()))
              case Data =>
                && !eof && next == frame && source.pos == old(source.pos) && sent == old(sent)
                && frame.pos == old(frame.pos) && frame.remaining == old(frame.remaining)
                && frame.header.opcode == DeliveredOpcode(old(frame.header).opcode, old(remembered))
                && remembered == Remember(old(frame.header).opcode, old(remembered))
    {
      var opcode := frame.header.opcode;
      ghost var kind := KindOf(frame.header, server);
      if opcode == CONTINUATION {
        frame.header := frame.header.(opcode := remembered);
      } else if opcode == TEXT || opcode == BINARY {
        remembered := opcode;
      } else if opcode == CLOSE {
        assert kind == Closing;
        return null, true;
      } else if opcode == PING || opcode == PONG {
        assert kind == Control;
        HandleControl(frame, opcode == PING);
        return null, false;
      }
      assert kind == Data;
      return frame, false;
    }

    /** HandleFrame on a frame whose header was just read. */
    method HandleFrame(frame: FrameReader) returns (next: FrameReader?, eof: bool)
      requires Valid() && frameReader == null && frame.source == source && frame.Valid()
      modifies this`wire, this`sent, this`keysDrawn, this`remembered, frame, source
      ensures Valid() && frame.Valid() && (eof ==> next == null)
      ensures frame.header == old(frame.header).(opcode := frame.header.opcode)
      ensures match KindOf(old(frame.header), server)
              case Violation =>
                && eof && source.pos == old(source.pos) && remembered == old(remembered)
                && sent == old(sent) + [Message(CLOSE, PROTOCOL_ERROR)]
              case Closing => eof && source.pos == old(source.pos) && remembered == old(remembered) && sent == old(sent)
              case Control =>
                && !eof && next == null && source.pos == old(frame.End()) && remembered == old(remembered)
                && sent == old(sent) + ReplyTo(old(frame.header), old(frame.Rest()))
              case Data =>
                && !eof && next == frame && source.pos == old(source.pos) && sent == old(sent)
                && frame.pos == old(frame.pos) && frame.remaining == old(frame.remaining)
                && frame.header.opcode == DeliveredOpcode(old(frame.header).opcode, old(remembered))
                && remembered == Remember(old(frame.header).opcode, old(remembered))
      ensures old(frame.header).key.Some? != server ==> eof && sent == old(sent) + [Message(8, [0x03, 0xEA])]
    {
      // The client must mask every frame, the server none.
      if (server && frame.header.key.None?) || (!server && frame.header.key.Some?) {
        var _ := Send(CLOSE, PROTOCOL_ERROR);
        return null, true;
      }
      next, eof := Dispatch(frame);
    }

    /** NewFrameReader on this connection, noting where the frame starts. */
    method LookForFrame() returns (frame: FrameReader?)
      requires Valid() && frameReader == null
      modifies this`start, source
      ensures Valid() && start == old(source.pos)
      ensures frame == null ==> ParseHeader(source.data[start..]) == None && source.pos == |source.data|
      ensures frame != null ==> fresh(frame) && frame.source == source && frame.Valid() && frame.Opens(start)
    {
      start := source.pos;
      frame := NewFrameReader(source);
    }

    /** The same, in terms of what is left to read. A Close or a violation leaves the stream here, behind the
        header, and a header that is cut off at its end. */
    method StartFrame() returns (frame: FrameReader?)
      requires Valid() && frameReader == null
      modifies this`start, source
      ensures Valid() && start == old(source.pos)
      ensures match ParseHeader(old(source.Rest()))
              case None => frame == null
              case Some(p) =>
                && frame != null && fresh(frame) && frame.source == source && frame.Valid()
                && source.pos == start + p.size && p.size > 0 && frame.header == p.header
                && frame.Rest() == Payload(p, old(source.Rest()))
                && source.data[frame.End()..] == After(p, old(source.Rest()))
                && (IsBoundary(source.data, start) ==> frame.Inside(start) && IsBoundary(source.data, frame.End()))
      ensures IsBoundary(source.data, start) ==> Stopped()
    {
      frame := LookForFrame();
      if frame != null {
        frame.OpensAt(start);
      }
      if IsBoundary(source.data, start) {
        StoppedExactly(source.data, start, source.pos);
      }
    }

    /** One turn of the loop that Read and Receive share: NewFrameReader, then HandleFrame. */
    method NextFrame() returns (frame: FrameReader?, eof: bool)
      requires Valid() && frameReader == null
      modifies this`wire, this`sent, this`keysDrawn, this`remembered, this`start, source
      ensures Valid() && (frame != null ==> fresh(frame) && frame.source == source && frame.Valid())
      ensures if eof then frame == null else source.pos > old(source.pos)
      ensures NextTurn(old(Now()), server) ==
              if eof then Ended(sent)
              else if frame == null then Swallowed(Now())
              else Opened(ViewWith(frame), frame.header.opcode)
      ensures old(Aligned()) ==>
                if eof then Stopped() else if frame == null then Aligned() else frame.Inside(start)
    {
      frame := StartFrame();
      if frame == null {
        return null, true;
      }
      ghost var end := frame.End();
      assert end > start;
      frame, eof := HandleFrame(frame);
    }

    /** Reading from the current frame; at its end there is no current frame any more. */
    method ReadCurrent(msg: array<bv8>) returns (n: nat, eof: bool)
      requires Valid() && frameReader != null
      modifies this`frameReader, source, frameReader, msg
      ensures Valid() && n <= msg.Length && source.pos >= old(source.pos)
      ensures if eof then frameReader == null && n == 0 && Now() == old(Now())
              else
                && frameReader == old(frameReader) && Now() == old(Now()).(pending := Now().pending)
                && old(Now()).pending == msg[..n] + Now().pending && (n > 0 || msg.Length == 0)
      ensures !eof ==> (source.pos < frameReader.End() <==> frameReader.Rest() != [])
      ensures old(Aligned()) ==> Aligned()
    {
      n, eof := frameReader.ReadInside(msg, start);
      ghost var v := Now();
      if eof {
        frameReader := null;
        assert Now() == v;
      }
    }

    /** Read's other half: with no current frame, one turn of the loop. */
    method OpenNext() returns (eof: bool)
      requires Valid() && frameReader == null
      modifies this`wire, this`sent, this`keysDrawn, this`remembered, this`start, this`frameReader, source
      ensures Valid() && (frameReader != null ==> fresh(frameReader))
      ensures if eof then
                && Stream(old(Now()), server) == [] && sent == SentAndOwed(old(Now()), server)
                && (old(Aligned()) ==> Stopped())
              else
                && Stream(old(Now()), server) == Stream(Now(), server) && source.pos > old(source.pos)
                && SentAndOwed(Now(), server) == SentAndOwed(old(Now()), server)
                && (old(Aligned()) ==> Aligned())
    {
      ghost var v := Now();
      var frame;
      frame, eof := NextFrame();
      ghost var w := ViewWith(frame);
      frameReader := frame;
      assert Now() == w;
      if eof {
        TurnEnds(v, server, sent);
      } else if frame == null {
        TurnGoesOn(v, server, w, CONTINUATION);
      } else {
        TurnGoesOn(v, server, w, frame.header.opcode);
      }
    }

    /** Conn.Read: fills msg from the current frame, moving on to further frames as they end. */
    method Read(msg: array<bv8>) returns (n: nat, eof: bool)
      requires Valid()
      modifies this`wire, this`sent, this`keysDrawn, this`remembered, this`start, this`frameReader
      modifies source, frameReader, msg
      ensures Valid() && n <= msg.Length
      ensures frameReader != null && frameReader != old(frameReader) ==> fresh(frameReader)
      ensures if eof then
                && n == 0 && Stream(old(Now()), server) == [] && sent == SentAndOwed(old(Now()), server)
                && (old(Aligned()) ==> Stopped())
              else
                && Stream(old(Now()), server) == msg[..n] + Stream(Now(), server) && (n > 0 || msg.Length == 0)
                && SentAndOwed(Now(), server) == SentAndOwed(old(Now()), server)
                && (old(Aligned()) ==> Aligned())
    {
      ghost var stream, owed, aligned := Stream(Now(), server), SentAndOwed(Now(), server), Aligned();
      while true
        invariant Valid()
        invariant frameReader != null && frameReader != old(frameReader) ==> fresh(frameReader)
        invariant Stream(Now(), server) == stream && SentAndOwed(Now(), server) == owed
        invariant aligned ==> Aligned()
        decreases |source.data| - source.pos, if frameReader == null then 0 else 1
      {
        if frameReader == null {
          eof := OpenNext();
          if eof {
            return 0, true;
          }
        } else {
          ghost var v := Now();
          n, eof := ReadCurrent(msg);
          if !eof {
            PartOfStream(v, Now(), msg[..n], server);
            return n, false;
          }
        }
      }
    }

    /** Codec.Receive: drops what is left of the current frame, then takes the next message whole. */
    method Receive() returns (m: Option<Message>)
      requires Valid()
      modifies this`wire, this`sent, this`keysDrawn, this`remembered, this`start, this`frameReader, source, frameReader
      ensures Valid() && frameReader == null
      ensures match m
              case None =>
                && Queue(old(Now()), server) == [] && sent == SentAndOwed(old(Now()), server)
                && (old(Aligned()) ==> Stopped())
              case Some(message) =>
                && Queue(old(Now()), server) == [message] + Queue(Now(), server)
                && SentAndOwed(Now(), server) == SentAndOwed(old(Now()), server)
                && (old(Aligned()) ==> Aligned())
    {
      DropCurrent();
      m := ReceiveNext();
    }

    /** Receive's loop, from between two frames. */
    method ReceiveNext() returns (m: Option<Message>)
      requires Valid() && frameReader == null
      modifies this`wire, this`sent, this`keysDrawn, this`remembered, this`start, source
      ensures Valid() && frameReader == null
      ensures match m
              case None =>
                && Queue(old(Now()), server) == [] && sent == SentAndOwed(old(Now()), server)
                && (old(Aligned()) ==> Stopped())
              case Some(message) =>
                && Queue(old(Now()), server) == [message] + Queue(Now(), server)
                && SentAndOwed(Now(), server) == SentAndOwed(old(Now()), server)
                && (old(Aligned()) ==> Aligned())
    {
      ghost var queue, owed, aligned := Queue(Now(), server), SentAndOwed(Now(), server), Aligned();
      while true
        invariant Valid() && frameReader == null
        invariant Queue(Now(), server) == queue && SentAndOwed(Now(), server) == owed
        invariant aligned ==> Aligned()
        decreases |source.data| - source.pos
      {
        TurnKeeps(Now(), server);
        var frame, eof := NextFrame();
        if eof {
          return None;
        }
        if frame != null {
          var opcode := frame.header.opcode;
          var data := ReadWhole(frame);
          return Some(Message(opcode, data));
        }
      }
    }

    /** Receive's first step: after a partial Read exactly the rest of that frame is skipped. */
    method DropCurrent()
      requires Valid()
      modifies this`frameReader, source, frameReader
      ensures Valid() && frameReader == null
      ensures Now() == old(Now()).(pending := [])
      ensures old(frameReader) == null ==> source.pos == old(source.pos)
      ensures old(Aligned()) ==> Aligned()
    {
      if frameReader != null {
        var frame := frameReader;
        frameReader := null;
        var _ := ReadWhole(frame);
      }
    }

    /** ioutil.ReadAll on a frame of this connection. */
    method ReadWhole(frame: FrameReader) returns (data: Octets)
      requires Valid() && frameReader == null && frame.source == source && frame.Valid()
      modifies frame, source
      ensures Valid() && data == old(ViewWith(frame)).pending && Now() == old(ViewWith(frame)).(pending := [])
      ensures source.pos == old(frame.End())
      ensures old(frame.Inside(start)) ==> Aligned()
    {
      ghost var inside := frame.Inside(start);
      if inside {
        EndOfFrame(source.data, start, source.pos, frame.header.key, frame.remaining, frame.pos);
      }
      data := frame.ReadAll();
    }
  }
}
