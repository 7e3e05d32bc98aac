/** The frame codec of net/websocket/hybi.go: how one frame is laid out as bytes and read back
    (section 5.2 of RFC 6455). Bytes are bv8, lengths are unbounded naturals. */
module WsFrames {
  import opened Bytes

  const CONTINUATION: bv8 := 0
  const TEXT: bv8 := 1
  const BINARY: bv8 := 2
  const CLOSE: bv8 := 8
  const PING: bv8 := 9
  const PONG: bv8 := 10

  /** Go's `len` never exceeds this. */
  const MAX_INT: nat := 0x7fff_ffff_ffff_ffff

  /** hybiFrameHeader without its length, which the writer takes from the message. */
  datatype Header = Header(fin: bool, rsv1: bool, rsv2: bool, rsv3: bool, opcode: bv8, key: Option<Octets>)

  /** What NewFrameReader extracts: the header, the payload length and the bytes read. */
  datatype Parsed = Parsed(header: Header, length: nat, size: nat)

  predicate KeyOk(h: Header) {
    h.key.Some? ==> |h.key.value| == 4
  }

  // ----- masking -----

  /** XOR with the key, the first byte using key position `pos`. */
  function Mask(key: Octets, data: Octets, pos: nat): (r: Octets)
    requires |key| == 4
    ensures |r| == |data|
  {
    seq(|data|, i requires 0 <= i < |data| => data[i] ^ key[(pos + i) % 4])
  }

  lemma MaskTwice(key: Octets, data: Octets, pos: nat)
    requires |key| == 4
    ensures forall i | 0 <= i < |data| :: Mask(key, data, pos)[i] == data[i] ^ key[(pos + i) % 4]
    ensures Mask(key, Mask(key, data, pos), pos) == data
  {
    forall i | 0 <= i < |data|
      ensures Mask(key, Mask(key, data, pos), pos)[i] == data[i]
    {
      XorTwice(data[i], key[(pos + i) % 4]);
    }
  }

  lemma XorTwice(a: bv8, k: bv8)
    ensures (a ^ k) ^ k == a
  {
  }

  /** Masking goes on across a split, at the position where the first part ended. */
  lemma MaskSplit(key: Octets, a: Octets, b: Octets, pos: nat)
    requires |key| == 4
    ensures Mask(key, a + b, pos) == Mask(key, a, pos) + Mask(key, b, pos + |a|)
  {
    forall i | 0 <= i < |a + b|
      ensures Mask(key, a + b, pos)[i] == (Mask(key, a, pos) + Mask(key, b, pos + |a|))[i]
    {
      if i >= |a| {
        assert pos + i == pos + |a| + (i - |a|);
      }
    }
  }

  /** Payload bytes as they go on the wire, or back: the mapping is its own inverse. */
  function Cover(key: Option<Octets>, data: Octets, pos: nat): (r: Octets)
    requires key.Some? ==> |key.value| == 4
    ensures |r| == |data|
  {
    if key.Some? then Mask(key.value, data, pos) else data
  }

  // ----- writing -----

  function FirstByte(h: Header): bv8 {
    (((if h.fin then 0x80 else 0) | (if h.rsv1 then 0x40 else 0)) |
     ((if h.rsv2 then 0x20 else 0) | (if h.rsv3 then 0x10 else 0))) | h.opcode
  }

  /** The number of extra length bytes the writer picks. */
  function LengthFields(length: nat): nat {
    if length <= 125 then 0 else if length < 65536 then 2 else 8
  }

  function SecondByte(masked: bool, length: nat): bv8 {
    (if masked then 0x80 else 0) | (if length <= 125 then ToByte(length) else if length < 65536 then 126 else 127)
  }

  function EncodeHeader(h: Header, length: nat): (s: Octets)
  {
    [FirstByte(h), SecondByte(h.key.Some?, length)]
    + BigEndian(length, LengthFields(length))
    + (if h.key.Some? then h.key.value else [])
  }

  function Encode(h: Header, msg: Octets): Octets
    requires KeyOk(h)
  {
    EncodeHeader(h, |msg|) + Cover(h.key, msg, 0)
  }

  // ----- reading -----

  function HeaderOf(b: bv8, key: Option<Octets>): Header {
    Header((b >> 7) & 1 != 0, (b >> 6) & 1 != 0, (b >> 5) & 1 != 0, (b >> 4) & 1 != 0, b & 0x0f, key)
  }

  /** Extra length bytes announced by the second byte. */
  function Announced(b: bv8): nat {
    if b & 0x7f <= 125 then 0 else if b & 0x7f == 126 then 2 else 8
  }

  /** The length announced by the second byte and its extra bytes; the top bit of an eight-byte length is dropped. */
  function LengthOf(b: bv8, extra: Octets): nat
    requires |extra| == Announced(b)
  {
    if extra == [] then FromByte(b & 0x7f)
    else if |extra| == 8 then FromBigEndian([extra[0] & 0x7f] + extra[1..])
    else FromBigEndian(extra)
  }

  function HeaderSize(b: bv8): nat {
    2 + Announced(b) + if b & 0x80 != 0 then 4 else 0
  }

  /** The header at the start of s; None when s ends inside it. */
  function ParseHeader(s: Octets): (r: Option<Parsed>)
    ensures r.Some? ==> KeyOk(r.value.header) && 2 <= r.value.size <= |s|
  {
    if |s| < 2 || |s| < HeaderSize(s[1]) then None else
    var n := 2 + Announced(s[1]);
    var size := HeaderSize(s[1]);
    Some(Parsed(HeaderOf(s[0], if s[1] & 0x80 != 0 then Some(s[n..size]) else None), LengthOf(s[1], s[2..n]), size))
  }

  // ----- the layout, bit by bit -----

  /** Covering is XOR with the key's bytes in turn, or nothing. */
  lemma CoverAt(key: Option<Octets>, data: Octets, pos: nat)
    requires key.Some? ==> |key.value| == 4
    ensures forall i | 0 <= i < |data| ::
              Cover(key, data, pos)[i] == if key.Some? then data[i] ^ key.value[(pos + i) % 4] else data[i]
  {
  }

  lemma FlagByteBits(h: Header)
    requires h.opcode < 16
    ensures var b := FirstByte(h);
            && (b & 0x80 != 0 <==> h.fin) && (b & 0x40 != 0 <==> h.rsv1) && (b & 0x20 != 0 <==> h.rsv2)
            && (b & 0x10 != 0 <==> h.rsv3) && b & 0x0f == h.opcode
  {
  }

  lemma LengthByteBits(masked: bool, length: nat)
    ensures var b := SecondByte(masked, length);
            && (b & 0x80 != 0 <==> masked)
            && (b & 0x7f) as nat == if length <= 125 then length else if length < 65536 then 126 else 127
  {
    if length <= 125 {
      SecondByteRoundTrip(masked, length);
    }
  }

  lemma EightBytes(s: Octets)
    requires |s| == 8
    ensures FromBigEndian(s) == (FromByte(s[0]) * 0x100_0000 + FromByte(s[1]) * 0x1_0000
                                 + FromByte(s[2]) * 0x100 + FromByte(s[3])) * 0x1_0000_0000
                                + FromByte(s[4]) * 0x100_0000 + FromByte(s[5]) * 0x1_0000
                                + FromByte(s[6]) * 0x100 + FromByte(s[7])
  {
    FourAhead(s, 0);
    FourAhead(s, 4);
    assert FromBigEndian(s[..0]) == 0 && s[..8] == s;
  }

  /** The extra length bytes spell the length, most significant byte first. */
  lemma LengthFieldBytes(length: nat)
    requires length <= MAX_INT
    ensures var k := LengthFields(length);
            var s := BigEndian(length, k);
            && k == (if length <= 125 then 0 else if length < 65536 then 2 else 8)
            && (k == 2 ==> length == s[0] as nat * 0x100 + s[1] as nat)
            && (k == 8 ==> length == (s[0] as nat * 0x100_0000 + s[1] as nat * 0x1_0000
                                      + s[2] as nat * 0x100 + s[3] as nat) * 0x1_0000_0000
                                     + s[4] as nat * 0x100_0000 + s[5] as nat * 0x1_0000
                                     + s[6] as nat * 0x100 + s[7] as nat)
  {
    Pow256Values();
    if length > 65535 {
      BigEndianFits(length, 8);
      EightBytes(BigEndian(length, 8));
    } else if length > 125 {
      BigEndianFits(length, 2);
      var s := BigEndian(length, 2);
      TwoBytes(s[0], s[1]);
      assert s == [s[0], s[1]];
    }
  }

  /** Where the fields of a header stand. */
  lemma HeaderParts(h: Header, length: nat)
    requires KeyOk(h)
    ensures var s, k := EncodeHeader(h, length), LengthFields(length);
            && |s| == 2 + k + (if h.key.Some? then 4 else 0)
            && s[0] == FirstByte(h) && s[1] == SecondByte(h.key.Some?, length)
            && s[2..2 + k] == BigEndian(length, k) && (h.key.Some? ==> s[2 + k..] == h.key.value)
  {
  }

  /** The header on the wire, field by field (section 5.2 of RFC 6455): the flag bits and the opcode, the mask bit, the
      length in its shortest form, and the key. */
  lemma HeaderOnWire(h: Header, length: nat)
    requires KeyOk(h) && length <= MAX_INT
    ensures var s, k := EncodeHeader(h, length), if length <= 125 then 0 else if length < 65536 then 2 else 8;
            && |s| == 2 + k + (if h.key.Some? then 4 else 0)
            && (h.opcode < 16 ==>
                  && (s[0] & 0x80 != 0 <==> h.fin) && (s[0] & 0x40 != 0 <==> h.rsv1) && (s[0] & 0x20 != 0 <==> h.rsv2)
                  && (s[0] & 0x10 != 0 <==> h.rsv3) && s[0] & 0x0f == h.opcode)
            && (s[1] & 0x80 != 0 <==> h.key.Some?)
            && (s[1] & 0x7f) as nat == (if k == 0 then length else if k == 2 then 126 else 127)
            && (k == 2 ==> length == s[2] as nat * 0x100 + s[3] as nat)
            && (k == 8 ==> length == (s[2] as nat * 0x100_0000 + s[3] as nat * 0x1_0000
                                      + s[4] as nat * 0x100 + s[5] as nat) * 0x1_0000_0000
                                     + s[6] as nat * 0x100_0000 + s[7] as nat * 0x1_0000
                                     + s[8] as nat * 0x100 + s[9] as nat)
            && (h.key.Some? ==> s[2 + k..] == h.key.value)
  {
    var s, k := EncodeHeader(h, length), LengthFields(length);
    if h.opcode < 16 {
      FlagByteBits(h);
    }
    LengthByteBits(h.key.Some?, length);
    LengthFieldBytes(length);
    HeaderParts(h, length);
    var extra := BigEndian(length, k);
    assert forall i | 0 <= i < k :: extra[i] == s[2 + i];
  }

  /** The payload on the wire, behind the header: byte i is XORed with byte i mod 4 of the key, if there is one. */
  lemma PayloadOnWire(h: Header, msg: Octets)
    requires KeyOk(h)
    ensures var s, e := Encode(h, msg), EncodeHeader(h, |msg|);
            && |s| == |e| + |msg| && e <= s
            && forall i | 0 <= i < |msg| ::
                 s[|e| + i] == if h.key.Some? then msg[i] ^ h.key.value[i % 4] else msg[i]
  {
    CoverAt(h.key, msg, 0);
  }

  /** What the reader takes a header to say, field by field: the same bits, any of the three lengths, the top bit of
      an eight-byte one ignored. There is no header exactly while the stream is too short for it. */
  lemma HeaderFormat(s: Octets)
    ensures ParseHeader(s).Some? <==>
              && |s| >= 2
              && var low := (s[1] & 0x7f) as nat;
                 |s| >= 2 + (if low <= 125 then 0 else if low == 126 then 2 else 8)
                        + (if s[1] & 0x80 != 0 then 4 else 0)
    ensures ParseHeader(s).Some? ==>
              var p, low := ParseHeader(s).value, (s[1] & 0x7f) as nat;
              var n := 2 + if low <= 125 then 0 else if low == 126 then 2 else 8;
              && (p.header.fin <==> s[0] & 0x80 != 0) && (p.header.rsv1 <==> s[0] & 0x40 != 0)
              && (p.header.rsv2 <==> s[0] & 0x20 != 0) && (p.header.rsv3 <==> s[0] & 0x10 != 0)
              && p.header.opcode == s[0] & 0x0f
              && p.size == n + (if s[1] & 0x80 != 0 then 4 else 0)
              && p.header.key == (if s[1] & 0x80 != 0 then Some(s[n..n + 4]) else None)
              && (low <= 125 ==> p.length == low)
              && (low == 126 ==> p.length == s[2] as nat * 0x100 + s[3] as nat)
              && (low == 127 ==> p.length == ((s[2] & 0x7f) as nat * 0x100_0000 + s[3] as nat * 0x1_0000
                                              + s[4] as nat * 0x100 + s[5] as nat) * 0x1_0000_0000
                                             + s[6] as nat * 0x100_0000 + s[7] as nat * 0x1_0000
                                             + s[8] as nat * 0x100 + s[9] as nat)
  {
    if |s| >= 2 {
      LowSevenBits(s[1]);
    }
    if ParseHeader(s).Some? {
      FlagBitsRead(s[0]);
      LengthRead(s[1], s[2..2 + Announced(s[1])]);
    }
  }

  lemma LowSevenBits(b: bv8)
    ensures var low := (b & 0x7f) as nat;
            low < 128 && (b & 0x7f <= 125 <==> low <= 125) && (b & 0x7f == 126 <==> low == 126)
  {
  }

  lemma FlagBitsRead(b: bv8)
    ensures ((b >> 7) & 1 != 0 <==> b & 0x80 != 0) && ((b >> 6) & 1 != 0 <==> b & 0x40 != 0)
    ensures ((b >> 5) & 1 != 0 <==> b & 0x20 != 0) && ((b >> 4) & 1 != 0 <==> b & 0x10 != 0)
  {
  }

  lemma LengthRead(b: bv8, extra: Octets)
    requires |extra| == Announced(b)
    ensures |extra| == 0 ==> LengthOf(b, extra) == (b & 0x7f) as nat
    ensures |extra| == 2 ==> LengthOf(b, extra) == extra[0] as nat * 0x100 + extra[1] as nat
    ensures |extra| == 8 ==>
              LengthOf(b, extra) == ((extra[0] & 0x7f) as nat * 0x100_0000 + extra[1] as nat * 0x1_0000
                                     + extra[2] as nat * 0x100 + extra[3] as nat) * 0x1_0000_0000
                                    + extra[4] as nat * 0x100_0000 + extra[5] as nat * 0x1_0000
                                    + extra[6] as nat * 0x100 + extra[7] as nat
  {
    if |extra| == 2 {
      TwoBytes(extra[0], extra[1]);
      assert extra == [extra[0], extra[1]];
    } else if |extra| == 8 {
      EightBytes([extra[0] & 0x7f] + extra[1..]);
    }
  }

  // ----- the codec's laws -----

  /** Reading the flag byte back gives the flags and opcode exactly when the opcode has four bits. */
  lemma FirstByteRoundTrip(h: Header)
    ensures HeaderOf(FirstByte(h), h.key) == h <==> h.opcode < 16
  {
    assert (FirstByte(h) & 0x0f) < 16;
    if h.opcode < 16 {
      FlagBits(h.fin, h.rsv1, h.rsv2, h.rsv3, h.opcode);
    }
  }

  lemma FlagBits(f: bool, r1: bool, r2: bool, r3: bool, op: bv8)
    requires op < 16
    ensures HeaderOf(FirstByte(Header(f, r1, r2, r3, op, None)), None) == Header(f, r1, r2, r3, op, None)
  {
  }

  lemma SecondByteRoundTrip(masked: bool, length: nat)
    ensures var b := SecondByte(masked, length);
            && (b & 0x80 != 0 <==> masked)
            && Announced(b) == LengthFields(length)
            && (length <= 125 ==> FromByte(b & 0x7f) == length)
  {
    if length <= 125 {
      var l := ToByte(length);
      ByteOfNumber(length);
      SmallByte(l);
      assert SecondByte(masked, length) == (if masked then 0x80 else 0) | l;
    }
  }

  lemma SmallByte(l: bv8)
    requires FromByte(l) <= 125
    ensures l <= 125 && l & 0x7f == l && l & 0x80 == 0
    ensures (0x80 | l) & 0x7f == l && (0x80 | l) & 0x80 != 0 && 0 | l == l
  {
  }

  lemma LengthRoundTrip(masked: bool, length: nat)
    requires length <= MAX_INT
    ensures var b := SecondByte(masked, length);
            && Announced(b) == LengthFields(length)
            && LengthOf(b, BigEndian(length, LengthFields(length))) == length
  {
    SecondByteRoundTrip(masked, length);
    var b, k := SecondByte(masked, length), LengthFields(length);
    if k > 0 {
      LongLength(b, length, k);
    }
  }

  /** The two longer forms. */
  lemma LongLength(b: bv8, length: nat, k: nat)
    requires Announced(b) == k && ((k == 2 && length < 65536) || (k == 8 && length <= MAX_INT))
    ensures LengthOf(b, BigEndian(length, k)) == length
  {
    var e := BigEndian(length, k);
    Pow256Values();
    BigEndianFits(length, k);
    if k == 8 {
      TopByte(length, 8);
      LowBit(e[0]);
      assert [e[0]] + e[1..] == e;
    }
  }

  lemma LowBit(b: bv8)
    requires FromByte(b) < 128
    ensures b & 0x7f == b
  {
  }

  lemma {:induction false} TopByte(n: nat, k: nat)
    requires k > 0 && n < 128 * Pow256(k - 1)
    ensures FromByte(BigEndian(n, k)[0]) < 128
  {
    if k == 1 {
      ByteOfNumber(n);
    } else {
      assert n / 256 < 128 * Pow256(k - 2) by {
        assert n < 256 * (128 * Pow256(k - 2));
      }
      TopByte(n / 256, k - 1);
    }
  }

  /** The reader recovers from an encoded header everything the writer put in, and how long it was. */
  lemma HeaderRoundTrip(h: Header, length: nat, rest: Octets)
    requires KeyOk(h) && length <= MAX_INT
    ensures var e := EncodeHeader(h, length);
            ParseHeader(e + rest) == Some(Parsed(HeaderOf(FirstByte(h), h.key), length, |e|))
  {
    var e, k := EncodeHeader(h, length), LengthFields(length);
    var first, second := FirstByte(h), SecondByte(h.key.Some?, length);
    var key := if h.key.Some? then h.key.value else [];
    SecondByteRoundTrip(h.key.Some?, length);
    LengthRoundTrip(h.key.Some?, length);
    MiddleParts([first, second], BigEndian(length, k), key, rest);
    assert e + rest == [first, second] + BigEndian(length, k) + key + rest;
  }

  /** A header is read from any stretch of the stream that reaches its end, and from no shorter one. */
  lemma ParseLocal(s: Octets, m: nat)
    requires ParseHeader(s).Some? && m <= |s|
    ensures ParseHeader(s[..m]) == if m < ParseHeader(s).value.size then None else ParseHeader(s)
  {
    var t, n, size := s[..m], 2 + Announced(s[1]), HeaderSize(s[1]);
    if m >= size {
      TakeSlice(s, m, 2, n);
      TakeSlice(s, m, n, size);
    }
  }

  lemma CoverPrefix(key: Option<Octets>, data: Octets, j: nat)
    requires (key.Some? ==> |key.value| == 4) && j <= |data|
    ensures Cover(key, data, 0)[..j] == Cover(key, data[..j], 0)
  {
    forall i | 0 <= i < j
      ensures Cover(key, data, 0)[..j][i] == Cover(key, data[..j], 0)[i]
    {
    }
  }

  /** Two encodings, one a prefix of the other, are the same frame: the encoding is an injective prefix code. */
  lemma PrefixCode(h1: Header, m1: Octets, h2: Header, m2: Octets, rest: Octets)
    requires KeyOk(h1) && KeyOk(h2) && |m1| <= MAX_INT && |m2| <= MAX_INT
    requires h1.opcode < 16 && h2.opcode < 16
    requires Encode(h1, m1) + rest == Encode(h2, m2)
    ensures h1 == h2 && m1 == m2 && rest == []
  {
    var e1, e2 := EncodeHeader(h1, |m1|), EncodeHeader(h2, |m2|);
    var c1, c2 := Cover(h1.key, m1, 0), Cover(h2.key, m2, 0);
    assert e1 + (c1 + rest) == Encode(h1, m1) + rest;
    HeaderRoundTrip(h1, |m1|, c1 + rest);
    HeaderRoundTrip(h2, |m2|, c2);
    FirstByteRoundTrip(h1);
    FirstByteRoundTrip(h2);
    assert h1 == h2 && |m1| == |m2|;
    assert c1 == (e1 + (c1 + rest))[|e1|..|e1| + |c1|];
    assert c2 == (e2 + c2)[|e2|..|e2| + |c2|];
    CoverTwice(h1.key, m1, 0);
    CoverTwice(h2.key, m2, 0);
  }

  lemma CoverTwice(key: Option<Octets>, data: Octets, pos: nat)
    requires key.Some? ==> |key.value| == 4
    ensures Cover(key, Cover(key, data, pos), pos) == data
  {
    if key.Some? {
      MaskTwice(key.value, data, pos);
    }
  }

  /** No header the reader accepts for a length is shorter than the one the writer emits,
      and no length it reads passes 2^63-1. */
  lemma WriterIsShortest(s: Octets)
    requires ParseHeader(s).Some?
    ensures var p := ParseHeader(s).value;
            p.length <= MAX_INT && |EncodeHeader(p.header, p.length)| <= p.size
  {
    var k := Announced(s[1]);
    var extra := s[2..2 + k];
    Pow256Values();
    if k == 0 {
      Seven(s[1]);
    } else if k == 2 {
      FromBigEndianBound(extra);
    } else {
      var e := [extra[0] & 0x7f] + extra[1..];
      Half(e);
    }
  }

  lemma Seven(b: bv8)
    requires b & 0x7f <= 125
    ensures FromByte(b & 0x7f) <= 125
  {
  }

  lemma {:induction false} Half(e: Octets)
    requires e != [] && e[0] & 0x7f == e[0]
    ensures FromBigEndian(e) < 128 * Pow256(|e| - 1)
  {
    if |e| == 1 {
      assert e[..0] == [];
      assert FromByte(e[0]) < 128;
    } else {
      Half(e[..|e| - 1]);
    }
  }
}
