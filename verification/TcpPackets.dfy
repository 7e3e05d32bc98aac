/** net/tcp_reader.go and net/tcp_writer.go: packets behind a four-byte length, read through a buffer
    that is kept and replaced. */
module TcpPackets {
  import opened Bytes
  import opened Numbers
  import opened Streams

  const HEAD_SIZE: nat := 4
  const PACKET_SIZE: nat := 4096

  // ----- the format -----

  /** writePacket's bytes; the length is cut to 32 bits. */
  function EncodePacket(p: Octets): Octets {
    BigEndian(|p| % TWO_32, HEAD_SIZE) + p
  }

  function EncodePackets(ps: seq<Octets>): Octets {
    if ps == [] then [] else EncodePacket(ps[0]) + EncodePackets(ps[1..])
  }

  /** The length of the packet at the front of s with its head; None when the head is not all there. */
  function Framed(s: Octets): Option<nat> {
    if |s| < HEAD_SIZE then None else Some(HEAD_SIZE + FromBigEndian(s[..HEAD_SIZE]))
  }

  predicate HasPacket(s: Octets) {
    Framed(s).Some? && Framed(s).value <= |s|
  }

  /** The packets a stream holds before the first error. */
  function Packets(s: Octets): seq<Octets>
    decreases |s|
  {
    if HasPacket(s) then [s[HEAD_SIZE..Framed(s).value]] + Packets(s[Framed(s).value..]) else []
  }

  lemma HeadRoundTrip(p: Octets, rest: Octets)
    ensures Framed(EncodePacket(p) + rest) == Some(HEAD_SIZE + |p| % TWO_32)
  {
    var n := |p| % TWO_32;
    Pow256Values();
    BigEndianFits(n, HEAD_SIZE);
    var head := BigEndian(n, HEAD_SIZE);
    Associative(head, p, rest);
    Halves(head, p + rest);
  }

  predicate Short(ps: seq<Octets>) {
    forall i | 0 <= i < |ps| :: |ps[i]| < TWO_32
  }

  lemma PacketAtFront(p: Octets, rest: Octets)
    requires |p| < TWO_32
    ensures var s := EncodePacket(p) + rest;
            HasPacket(s) && s[HEAD_SIZE..Framed(s).value] == p && s[Framed(s).value..] == rest
  {
    var head := BigEndian(|p| % TWO_32, HEAD_SIZE);
    var s := head + p + rest;
    HeadRoundTrip(p, rest);
    Associative(head, p, rest);
    Halves(head, p + rest);
    Halves(p, rest);
    DropSlice(s, HEAD_SIZE, 0, |p|);
    DropDrop(s, HEAD_SIZE, |p|);
  }

  lemma OnePacket(p: Octets, rest: Octets)
    requires |p| < TWO_32
    ensures HasPacket(EncodePacket(p) + rest) && Packets(EncodePacket(p) + rest) == [p] + Packets(rest)
  {
    PacketAtFront(p, rest);
  }

  lemma NoPacketYet(p: Octets, rest: Octets, m: nat)
    requires |p| < TWO_32 && m < |EncodePacket(p)|
    ensures Packets((EncodePacket(p) + rest)[..m]) == []
  {
    var s := EncodePacket(p) + rest;
    HeadRoundTrip(p, rest);
    if m >= HEAD_SIZE {
      assert s[..m][..HEAD_SIZE] == s[..HEAD_SIZE];
    }
  }

  lemma PacketThenCut(p: Octets, tail: Octets, m: nat)
    requires |p| < TWO_32 && |EncodePacket(p)| <= m <= |EncodePacket(p) + tail|
    ensures Packets((EncodePacket(p) + tail)[..m]) == [p] + Packets(tail[..m - |EncodePacket(p)|])
  {
    var rest := tail[..m - |EncodePacket(p)|];
    TakeBeyond(EncodePacket(p), tail, m);
    OnePacket(p, rest);
  }

  /** The layout: four bytes of length, most significant first, and the packet. */
  lemma PacketOnWire(p: Octets)
    ensures var s := EncodePacket(p);
            && |s| == 4 + |p| && s[4..] == p
            && s[0] as nat * 0x100_0000 + s[1] as nat * 0x1_0000 + s[2] as nat * 0x100 + s[3] as nat
               == |p| % 0x1_0000_0000
  {
    var head := BigEndian(|p| % TWO_32, HEAD_SIZE);
    Pow256Values();
    BigEndianFits(|p| % TWO_32, HEAD_SIZE);
    FourBytes(head);
    assert head[..4] == head;
    Halves(head, p);
  }

  /** The first packet of a stream: as many bytes behind the first four as these say, if they are there. */
  lemma FirstPacket(s: Octets)
    requires |s| >= 4
    ensures var n := s[0] as nat * 0x100_0000 + s[1] as nat * 0x1_0000 + s[2] as nat * 0x100 + s[3] as nat;
            Packets(s) == if 4 + n <= |s| then [s[4..4 + n]] + Packets(s[4 + n..]) else []
  {
    FourBytes(s);
  }

  /** How many of the packets are complete within the first m bytes. */
  function Complete(ps: seq<Octets>, m: nat): (k: nat)
    ensures k <= |ps|
  {
    if ps == [] || m < |EncodePacket(ps[0])| then 0
    else 1 + Complete(ps[1..], m - |EncodePacket(ps[0])|)
  }

  /** A stream cut off after m bytes gives exactly the packets that are complete by then. */
  lemma {:induction false} CutStream(ps: seq<Octets>, m: nat)
    requires Short(ps) && m <= |EncodePackets(ps)|
    ensures Packets(EncodePackets(ps)[..m]) == ps[..Complete(ps, m)]
  {
    if ps != [] {
      var tail, first := EncodePackets(ps[1..]), |EncodePacket(ps[0])|;
      if m < first {
        NoPacketYet(ps[0], tail, m);
      } else {
        PacketThenCut(ps[0], tail, m);
        CutStream(ps[1..], m - first);
        FirstOf(ps, Complete(ps[1..], m - first));
      }
    }
  }

  /** All packets are complete in the whole stream, and only there. */
  lemma {:induction false} CompleteAll(ps: seq<Octets>, m: nat)
    requires m <= |EncodePackets(ps)|
    ensures Complete(ps, m) == |ps| <==> m == |EncodePackets(ps)|
  {
    if ps != [] && m >= |EncodePacket(ps[0])| {
      CompleteAll(ps[1..], m - |EncodePacket(ps[0])|);
    }
  }

  lemma PacketsRoundTrip(ps: seq<Octets>)
    requires Short(ps)
    ensures Packets(EncodePackets(ps)) == ps
  {
    var s := EncodePackets(ps);
    CutStream(ps, |s|);
    CompleteAll(ps, |s|);
    assert s[..|s|] == s && ps[..|ps|] == ps;
  }

  /** What is left of a stream at the first error. */
  function Remains(s: Octets): (r: Octets)
    ensures !HasPacket(r)
    decreases |s|
  {
    if HasPacket(s) then Remains(s[Framed(s).value..]) else s
  }

  /** The error is that of a stream that ends between two packets; also right behind the head of a packet
      that is not empty. */
  predicate LooksEnded(s: Octets) {
    !HasPacket(s) && (|s| == 0 || |s| == HEAD_SIZE)
  }

  lemma PacketThenCutRemains(p: Octets, tail: Octets, m: nat)
    requires |p| < TWO_32 && |EncodePacket(p)| <= m <= |EncodePacket(p) + tail|
    ensures Remains((EncodePacket(p) + tail)[..m]) == Remains(tail[..m - |EncodePacket(p)|])
  {
    TakeBeyond(EncodePacket(p), tail, m);
    PacketAtFront(p, tail[..m - |EncodePacket(p)|]);
  }

  lemma {:induction false} CutRemains(ps: seq<Octets>, m: nat)
    requires Short(ps) && m <= |EncodePackets(ps)|
    ensures |Remains(EncodePackets(ps)[..m])| == m - |EncodePackets(ps[..Complete(ps, m)])|
  {
    if ps != [] {
      var tail, first := EncodePackets(ps[1..]), EncodePacket(ps[0]);
      if m < |first| {
        NoPacketYet(ps[0], tail, m);
        assert ps[..0] == [];
      } else {
        var k := Complete(ps[1..], m - |first|);
        PacketThenCutRemains(ps[0], tail, m);
        CutRemains(ps[1..], m - |first|);
        FirstOf(ps, k);
        assert ps[..k + 1][1..] == ps[1..][..k];
      }
    }
  }

  /** A stream cut off anywhere looks ended exactly when it is cut between two packets or right behind the
      head of one. */
  lemma CutLooksEnded(ps: seq<Octets>, m: nat)
    requires Short(ps) && m <= |EncodePackets(ps)|
    ensures var whole := |EncodePackets(ps[..Complete(ps, m)])|;
            LooksEnded(Remains(EncodePackets(ps)[..m])) <==> m == whole || m == whole + HEAD_SIZE
  {
    CutRemains(ps, m);
  }

  lemma NothingRemains(ps: seq<Octets>)
    requires Short(ps)
    ensures LooksEnded(Remains(EncodePackets(ps)))
  {
    var s := EncodePackets(ps);
    CutLooksEnded(ps, |s|);
    CompleteAll(ps, |s|);
    assert s[..|s|] == s && ps[..|ps|] == ps;
  }

  /** A packet comes back as itself exactly when its length fits in 32 bits. */
  lemma FitsExactly(p: Octets)
    ensures Packets(EncodePacket(p)) == [p] <==> |p| < TWO_32
  {
    assert EncodePacket(p) + [] == EncodePacket(p);
    HeadRoundTrip(p, []);
    if |p| < TWO_32 {
      OnePacket(p, []);
    } else {
      assert |Packets(EncodePacket(p))[0]| == |p| % TWO_32;
    }
  }

  // ----- the writer -----

  class Writer {
    const buf: array<bv8>
    var wire: Octets

    ghost predicate Valid()
      reads this
    {
      buf.Length == HEAD_SIZE
    }

    constructor ()
      ensures Valid() && wire == [] && fresh(buf)
    {
      buf := new bv8[HEAD_SIZE];
      wire := [];
    }

    method WriteUint32BE(v: nat)
      requires Valid() && v < TWO_32
      modifies this, buf
      ensures Valid() && wire == old(wire) + BigEndian(v, HEAD_SIZE)
    {
      ghost var head := BigEndian(v, HEAD_SIZE);
      for i := 0 to HEAD_SIZE
        invariant Valid() && wire == old(wire) && forall j | 0 <= j < i :: buf[j] == head[j]
      {
        BigEndianAt(v, HEAD_SIZE, i);
        buf[i] := ToByte(ShiftBytes(v, HEAD_SIZE - 1 - i));
      }
      assert buf[..] == head;
      wire := wire + buf[..];
    }

    /** writePacket: the number of body bytes written. */
    method WritePacket(packet: Octets) returns (n: nat)
      requires Valid()
      modifies this, buf
      ensures Valid() && n == |packet| && wire == old(wire) + EncodePacket(packet)
    {
      WriteUint32BE(|packet| % TWO_32);
      wire := wire + packet;
      n := |packet|;
    }
  }

  // ----- the reader -----

  datatype Error = Eof | UnexpectedEof

  class Reader {
    const source: ByteSource
    var buf: array<bv8>

    ghost predicate Valid()
      reads this, source
    {
      source.Valid() && buf.Length >= PACKET_SIZE
    }

    constructor (source: ByteSource)
      requires source.Valid()
      ensures Valid() && this.source == source && fresh(buf) && buf.Length == 4096
    {
      this.source := source;
      buf := new bv8[PACKET_SIZE];
    }

    /** io.ReadFull into the first n places of the buffer. */
    method ReadFull(n: nat) returns (error: Option<Error>)
      requires Valid() && n <= buf.Length
      modifies source, buf
      ensures Valid()
      ensures if |old(source.Rest())| >= n then
                error == None && source.pos == old(source.pos) + n && buf[..n] == old(source.Rest())[..n]
              else
                && error == Some(if |old(source.Rest())| == 0 then Eof else UnexpectedEof)
                && source.pos == |source.data|
    {
      ghost var s, p := source.Rest(), source.pos;
      var got := 0;
      while got < n
        invariant Valid() && got <= n && source.pos == p + got
        invariant buf[..got] == s[..got]
        decreases n - got
      {
        var k, eof := source.ReadAt(buf, got, n - got);
        if eof {
          return Some(if got == 0 then Eof else UnexpectedEof);
        }
        assert buf[..got + k] == buf[..got] + buf[got..got + k];
        TakeMore(s, got, got + k);
        DropSlice(source.data, p, got, got + k);
        got := got + k;
      }
      error := None;
    }

    /** readBody: a body longer than the standard size gets a buffer of its own, which is then kept. */
    method ReadBody(n: nat) returns (error: Option<Error>)
      requires Valid()
      modifies this, source, buf
      ensures Valid() && (buf == old(buf) || fresh(buf)) && n <= buf.Length
      ensures if n > 4096 then fresh(buf) && buf.Length == n else buf == old(buf)
      ensures error == None <==> |old(source.Rest())| >= n
      ensures error == None ==> source.pos == old(source.pos) + n && buf[..n] == old(source.Rest())[..n]
      ensures error == Some(Eof) <==> |old(source.Rest())| == 0 < n
    {
      if n > PACKET_SIZE {
        buf := new bv8[n];
      }
      error := ReadFull(n);
    }

    /** readPacket: the packet is a copy, which no later call touches. */
    method ReadPacket() returns (packet: array<bv8>, error: Option<Error>)
      requires Valid()
      modifies this, source, buf
      ensures Valid() && (buf == old(buf) || fresh(buf)) && fresh(packet) && packet != buf
      ensures error == None <==> HasPacket(old(source.Rest()))
      ensures error == Some(Eof) <==> LooksEnded(old(source.Rest()))
      ensures error == None ==>
                var s := old(source.Rest());
                packet[..] == s[HEAD_SIZE..Framed(s).value] && source.Rest() == s[Framed(s).value..]
    {
      ghost var s := source.Rest();
      packet := new bv8[0];
      error := ReadFull(HEAD_SIZE);
      if error.Some? {
        return;
      }
      var n := FromBigEndian(buf[..HEAD_SIZE]);
      assert source.Rest() == s[HEAD_SIZE..];
      error := ReadBody(n);
      if error.Some? {
        return;
      }
      packet := new bv8[n];
      forall i | 0 <= i < n {
        packet[i] := buf[i];
      }
      assert packet[..] == buf[..n] == s[HEAD_SIZE..][..n];
    }
  }

  /** Successive reads until the first error: exactly the packets of the stream, each left as it was
      returned by all the reads after it, and the error that what remains looks like. */
  method ReadPackets(r: Reader) returns (packets: seq<array<bv8>>, error: Error)
    requires r.Valid()
    modifies r, r.source, r.buf
    ensures r.Valid()
    ensures |packets| == |Packets(old(r.source.Rest()))|
    ensures forall i | 0 <= i < |packets| :: packets[i][..] == Packets(old(r.source.Rest()))[i]
    ensures error == Eof <==> LooksEnded(Remains(old(r.source.Rest())))
  {
    packets := [];
    ghost var all, got, remains := Packets(r.source.Rest()), [], Remains(r.source.Rest());
    while true
      invariant r.Valid() && (r.buf == old(r.buf) || fresh(r.buf))
      invariant |got| == |packets| && all == got + Packets(r.source.Rest()) && remains == Remains(r.source.Rest())
      invariant forall i | 0 <= i < |packets| :: fresh(packets[i]) && packets[i] != r.buf && packets[i][..] == got[i]
      decreases |r.source.Rest()|
    {
      ghost var s := r.source.Rest();
      var packet, failure := r.ReadPacket();
      if failure.Some? {
        return packets, failure.value;
      }
      ghost var left := Packets(r.source.Rest());
      assert Packets(s) == [packet[..]] + left;
      Associative(got, [packet[..]], left);
      packets, got := packets + [packet], got + [packet[..]];
    }
  }

  /** Written by the one end and read by the other, in chunks of any size: the packets themselves. */
  method SendAndReceive(ps: seq<Octets>) returns (packets: seq<array<bv8>>, error: Error)
    requires Short(ps)
    ensures |packets| == |ps| && error == Eof && forall i | 0 <= i < |ps| :: packets[i][..] == ps[i]
  {
    var w := new Writer();
    for i := 0 to |ps|
      invariant w.Valid() && fresh(w) && fresh(w.buf) && w.wire == EncodePackets(ps[..i])
    {
      var _ := w.WritePacket(ps[i]);
      assert ps[..i + 1] == ps[..i] + [ps[i]];
      EncodePacketsAppend(ps[..i], ps[i]);
    }
    assert ps[..|ps|] == ps;
    var source := new ByteSource(w.wire);
    var r := new Reader(source);
    assert source.Rest() == EncodePackets(ps);
    PacketsRoundTrip(ps);
    NothingRemains(ps);
    packets, error := ReadPackets(r);
  }

  lemma {:induction false} EncodePacketsAppend(ps: seq<Octets>, p: Octets)
    ensures EncodePackets(ps + [p]) == EncodePackets(ps) + EncodePacket(p)
  {
    if ps == [] {
      assert [p][1..] == [];
    } else {
      assert (ps + [p])[1..] == ps[1..] + [p];
      EncodePacketsAppend(ps[1..], p);
    }
  }
}
