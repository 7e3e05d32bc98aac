/** Version 1 UUIDs: the clock-sequence state machine, the packing of its output into 16 bytes, and
    why no two of one run are equal. */
module Uuid {
  import opened Bytes
  import opened Numbers

  const TWO_48: nat := 0x1_0000_0000_0000
  const TWO_60: nat := 0x1000_0000_0000_0000
  const TWO_14: nat := 0x4000
  const TWO_12: nat := 0x1000

  datatype Variant = NCS | RFC4122 | Microsoft | Future

  predicate Is16(u: Octets) {
    |u| == 16
  }

  function Version(u: Octets): bv8
    requires Is16(u)
  {
    u[6] >> 4
  }

  function VariantOf(u: Octets): Variant
    requires Is16(u)
  {
    if u[8] & 0x80 == 0x00 then NCS
    else if (u[8] & 0xc0) | 0x80 == 0x80 then RFC4122
    else if (u[8] & 0xe0) | 0xc0 == 0xc0 then Microsoft
    else Future
  }

  /** The variants by their leading bits: 0, 10, 110 and 111. */
  lemma VariantBits(u: Octets)
    requires Is16(u)
    ensures VariantOf(u) == NCS <==> u[8] >> 7 == 0
    ensures VariantOf(u) == RFC4122 <==> u[8] >> 6 == 2
    ensures VariantOf(u) == Microsoft <==> u[8] >> 5 == 6
    ensures VariantOf(u) == Future <==> u[8] >> 5 == 7
  {
    var b := u[8];
    assert b & 0x80 == 0 <==> b >> 7 == 0;
    assert b >> 7 != 0 ==> ((b & 0xc0) | 0x80 == 0x80 <==> b >> 6 == 2);
    assert b >> 6 == 3 ==> ((b & 0xe0) | 0xc0 == 0xc0 <==> b >> 5 == 6);
  }

  function VersionByte(b: bv8, v: bv8): bv8 {
    (b & 0x0f) | (v << 4)
  }

  function VariantByte(b: bv8): bv8 {
    (b & 0xbf) | 0x80
  }

  function WithVersion(u: Octets, v: bv8): (r: Octets)
    requires Is16(u)
    ensures Is16(r)
  {
    u[6 := VersionByte(u[6], v)]
  }

  function WithVariant(u: Octets): (r: Octets)
    requires Is16(u)
    ensures Is16(r)
  {
    u[8 := VariantByte(u[8])]
  }

  /** Stamping a version of four bits is read back, and changes nothing else: the low half of byte 6,
      the other bytes and the variant stay. A larger version number loses its high bits. */
  lemma VersionStamp(u: Octets, v: bv8)
    requires Is16(u)
    ensures var r := WithVersion(u, v);
            && Version(r) == v & 0x0f && (Version(r) == v <==> v < 16)
            && r[6] & 0x0f == u[6] & 0x0f && r[..6] == u[..6] && r[7..] == u[7..]
            && VariantOf(r) == VariantOf(u)
  {
    var b := u[6];
    assert ((b & 0x0f) | (v << 4)) >> 4 == v & 0x0f;
    assert ((b & 0x0f) | (v << 4)) & 0x0f == b & 0x0f;
    assert v & 0x0f == v <==> v < 16;
  }

  /** Whatever the byte was, the stamped variant is the one of RFC 4122, and stamping keeps the other
      six bits, the version and every other byte. */
  lemma VariantStamp(u: Octets)
    requires Is16(u)
    ensures var r := WithVariant(u);
            && VariantOf(r) == RFC4122 && r[8] & 0x3f == u[8] & 0x3f
            && r[..8] == u[..8] && r[9..] == u[9..] && Version(r) == Version(u)
            && (VariantOf(u) == RFC4122 ==> r == u)
  {
    var b := u[8];
    assert ((b & 0xbf) | 0x80) & 0x80 != 0x00;
    assert (((b & 0xbf) | 0x80) & 0xc0) | 0x80 == 0x80;
    assert ((b & 0xbf) | 0x80) & 0x3f == b & 0x3f;
    if VariantOf(u) == RFC4122 {
      assert b & 0x80 != 0x00 && (b & 0xc0) | 0x80 == 0x80;
      assert (b & 0xbf) | 0x80 == b;
    }
  }

  // ----- packing -----

  function Fields(time: nat, clock: nat, node: Octets): (u: Octets)
    requires |node| == 6
    ensures Is16(u)
  {
    BigEndian(time % TWO_32, 4) + BigEndian(time / TWO_32 % TWO_16, 2) + BigEndian(time / TWO_48 % TWO_16, 2)
    + BigEndian(clock, 2) + node
  }

  function Pack(time: nat, clock: nat, node: Octets): (u: Octets)
    requires |node| == 6
    ensures Is16(u)
  {
    WithVariant(WithVersion(Fields(time, clock, node), 1))
  }

  /** The 60-bit timestamp of RFC 4122 section 4.1.4, read from the fields of section 4.1.2. */
  function TimeOf(u: Octets): nat
    requires Is16(u)
  {
    FromBigEndian(u[..4]) + FromBigEndian(u[4..6]) * TWO_32 + FromBigEndian(u[6..8]) % TWO_12 * TWO_48
  }

  /** The 14-bit clock sequence of section 4.1.5. */
  function ClockOf(u: Octets): nat
    requires Is16(u)
  {
    FromBigEndian(u[8..10]) % TWO_14
  }

  lemma VersionByteValue(b: bv8)
    ensures FromByte(VersionByte(b, 1)) == FromByte(b) % 16 + 16
  {
    assert FromByte(b & 0x0f) == FromByte(b) % 16;
    assert VersionByte(b, 1) == (b & 0x0f) + 16;
    assert b & 0x0f < 16;
  }

  lemma VariantByteValue(b: bv8)
    ensures FromByte(VariantByte(b)) == FromByte(b) % 64 + 128
  {
    assert FromByte((b & 0xbf) | 0x80) == FromByte(b) % 64 + 128;
  }

  /** The time from its bits 0 to 31, 32 to 47, 48 to 59 and the rest. */
  lemma TimeParts(time: nat, low: nat, mid: nat, high: nat, over: nat)
    requires low < TWO_32 && mid < TWO_16 && high < TWO_12
    requires time == ((over * TWO_12 + high) * TWO_16 + mid) * TWO_32 + low
    ensures time % TWO_32 == low && time / TWO_32 == (over * TWO_12 + high) * TWO_16 + mid
    ensures time / TWO_32 % TWO_16 == mid
    ensures time / TWO_48 == over * TWO_12 + high && time / TWO_48 % TWO_12 == high
    ensures time % TWO_60 == low + mid * TWO_32 + high * TWO_48
  {
    var b := over * TWO_12 + high;
    var a := b * TWO_16 + mid;
    ModUnique(time, a, low, TWO_32);
    ModUnique(a, b, mid, TWO_16);
    ModUnique(time, b, mid * TWO_32 + low, TWO_48);
    ModUnique(b, over, high, TWO_12);
    ModUnique(time, over, low + mid * TWO_32 + high * TWO_48, TWO_60);
  }

  lemma TimeFields(time: nat)
    ensures var a := time / TWO_32; var b := a / TWO_16;
            && TimePartsOf(time, time % TWO_32, a % TWO_16, b % TWO_12, b / TWO_12)
            && a >= 0 && b >= 0 && b / TWO_12 >= 0
  {
    var a := time / TWO_32;
    var b := a / TWO_16;
    assert time == a * TWO_32 + time % TWO_32;
    assert a == b * TWO_16 + a % TWO_16;
    assert b == b / TWO_12 * TWO_12 + b % TWO_12;
  }

  predicate TimePartsOf(time: nat, low: nat, mid: nat, high: nat, over: int) {
    && low < TWO_32 && mid < TWO_16 && high < TWO_12 && over >= 0
    && time == ((over * TWO_12 + high) * TWO_16 + mid) * TWO_32 + low
  }

  /** Splitting off bits 0 to 31, 32 to 47 and 48 to 59 loses exactly the bits from 60 on. */
  lemma SixtyBits(time: nat)
    ensures time % TWO_32 + time / TWO_32 % TWO_16 * TWO_32 + time / TWO_48 % TWO_12 * TWO_48 == time % TWO_60
  {
    var a := time / TWO_32;
    var b := a / TWO_16;
    TimeFields(time);
    TimeParts(time, time % TWO_32, a % TWO_16, b % TWO_12, b / TWO_12);
  }

  lemma TwoBytesOf(n: nat)
    ensures BigEndian(n, 2) == [ToByte(n / 256), ToByte(n)]
  {
    assert BigEndian(n / 256, 1) == [] + [ToByte(n / 256)];
  }

  /** The bytes of a packed value, group by group. */
  lemma PackBytes(time: nat, clock: nat, node: Octets)
    requires |node| == 6
    ensures var u, high := Pack(time, clock, node), time / TWO_48 % TWO_16;
            && u[..4] == BigEndian(time % TWO_32, 4)
            && u[4..6] == BigEndian(time / TWO_32 % TWO_16, 2)
            && u[6..8] == [VersionByte(ToByte(high / 256), 1), ToByte(high)]
            && u[8..10] == [VariantByte(ToByte(clock / 256)), ToByte(clock)]
            && u[10..] == node
  {
    TwoBytesOf(time / TWO_48 % TWO_16);
    TwoBytesOf(clock);
  }

  lemma FieldBits(a: nat, b: nat)
    requires a < 256 && b < 256
    ensures ((a % 16 + 16) * 256 + b) % TWO_12 == (a * 256 + b) % TWO_12
    ensures ((a % 64 + 128) * 256 + b) % TWO_14 == (a * 256 + b) % TWO_14
  {
    var low, high := a % 16 * 256 + b, a % 64 * 256 + b;
    ModUnique((a % 16 + 16) * 256 + b, 1, low, TWO_12);
    ModUnique(a * 256 + b, a / 16, low, TWO_12);
    ModUnique((a % 64 + 128) * 256 + b, 2, high, TWO_14);
    ModUnique(a * 256 + b, a / 64, high, TWO_14);
  }

  lemma NumberBytes(n: nat)
    requires n < TWO_16
    ensures FromByte(ToByte(n / 256)) == n / 256 && FromByte(ToByte(n)) == n % 256
    ensures n == n / 256 * 256 + n % 256 && n / 256 < 256
  {
    ByteOfNumber(n / 256);
    ByteOfNumber(n % 256);
  }

  /** The two high bytes of the time with a byte in front whose low four bits are the number's. */
  lemma HighField(high: nat, x: bv8)
    requires high < TWO_16 && FromByte(x) == high / 256 % 16 + 16
    ensures FromBigEndian([x, ToByte(high)]) % TWO_12 == high % TWO_12
  {
    NumberBytes(high);
    TwoBytes(x, ToByte(high));
    FieldBits(high / 256, high % 256);
  }

  lemma ClockField(clock: nat, x: bv8)
    requires clock < TWO_16 && FromByte(x) == clock / 256 % 64 + 128
    ensures FromBigEndian([x, ToByte(clock)]) % TWO_14 == clock % TWO_14
  {
    NumberBytes(clock);
    TwoBytes(x, ToByte(clock));
    FieldBits(clock / 256, clock % 256);
  }

  lemma StampedBytes(high: nat, clock: nat)
    requires high < TWO_16 && clock < TWO_16
    ensures FromByte(VersionByte(ToByte(high / 256), 1)) == high / 256 % 16 + 16
    ensures FromByte(VariantByte(ToByte(clock / 256))) == clock / 256 % 64 + 128
  {
    var a, b := ToByte(high / 256), ToByte(clock / 256);
    NumberBytes(high);
    NumberBytes(clock);
    VersionByteValue(a);
    VariantByteValue(b);
  }

  lemma StampedFields(time: nat, clock: nat, node: Octets)
    requires clock < TWO_16 && |node| == 6
    ensures var u := Pack(time, clock, node);
            && FromBigEndian(u[6..8]) % TWO_12 == time / TWO_48 % TWO_16 % TWO_12 && ClockOf(u) == clock % TWO_14
  {
    var high := time / TWO_48 % TWO_16;
    PackBytes(time, clock, node);
    StampedBytes(high, clock);
    HighField(high, VersionByte(ToByte(high / 256), 1));
    ClockField(clock, VariantByte(ToByte(clock / 256)));
  }

  lemma PlainFields(time: nat, clock: nat, node: Octets)
    requires clock < TWO_16 && |node| == 6
    ensures var u := Pack(time, clock, node);
            FromBigEndian(u[..4]) == time % TWO_32 && FromBigEndian(u[4..6]) == time / TWO_32 % TWO_16
  {
    PackBytes(time, clock, node);
    var low, mid := time % TWO_32, time / TWO_32 % TWO_16;
    Pow256Values();
    BigEndianFits(low, 4);
    BigEndianFits(mid, 2);
  }

  lemma Stamped(time: nat, clock: nat, node: Octets)
    requires |node| == 6
    ensures Version(Pack(time, clock, node)) == 1 && VariantOf(Pack(time, clock, node)) == RFC4122
  {
    var f := Fields(time, clock, node);
    VersionStamp(f, 1);
    VariantStamp(WithVersion(f, 1));
  }

  /** A packed UUID is of version 1 and variant RFC 4122, and gives back the low 60 bits of the time,
      the low 14 bits of the clock sequence and the node. */
  lemma PackRoundTrip(time: nat, clock: nat, node: Octets)
    requires clock < TWO_16 && |node| == 6
    ensures var u := Pack(time, clock, node);
            && Version(u) == 1 && VariantOf(u) == RFC4122
            && TimeOf(u) == time % TWO_60 && ClockOf(u) == clock % TWO_14 && u[10..] == node
  {
    Stamped(time, clock, node);
    PackBytes(time, clock, node);
    StampedFields(time, clock, node);
    PlainFields(time, clock, node);
    SixtyBits(time);
    ModMod(time / TWO_48);
  }

  lemma StampBits(a: bv8, b: bv8)
    ensures VersionByte(a, 1) >> 4 == 1 && VersionByte(a, 1) & 0x0f == a & 0x0f
    ensures VariantByte(b) >> 6 == 2 && VariantByte(b) & 0x3f == b & 0x3f
  {
  }

  lemma LowFour(b: bv8)
    ensures FromByte(b & 0x0f) == FromByte(b) % 16
  {
  }

  lemma LowSix(b: bv8)
    ensures FromByte(b & 0x3f) == FromByte(b) % 64
  {
  }

  lemma StampedHalves(a: bv8, b: bv8)
    ensures VersionByte(a, 1) >> 4 == 1 && (VersionByte(a, 1) & 0x0f) as nat == a as nat % 16
    ensures VariantByte(b) >> 6 == 2 && (VariantByte(b) & 0x3f) as nat == b as nat % 64
  {
    StampBits(a, b);
    LowFour(a);
    LowSix(b);
  }

  lemma LowParts(n: nat)
    requires n < TWO_16
    ensures n % TWO_12 == n / 256 % 16 * 256 + n % 256 && n % TWO_14 == n / 256 % 64 * 256 + n % 256
  {
    ModUnique(n, n / TWO_12, n / 256 % 16 * 256 + n % 256, TWO_12);
    ModUnique(n, n / TWO_14, n / 256 % 64 * 256 + n % 256, TWO_14);
  }

  lemma StampedLayout(high: nat, clock: nat)
    requires high < TWO_16 && clock < TWO_16
    ensures var x, y := VersionByte(ToByte(high / 256), 1), VariantByte(ToByte(clock / 256));
            && x >> 4 == 1 && (x & 0x0f) as nat * 0x100 + FromByte(ToByte(high)) == high % TWO_12
            && y >> 6 == 2 && (y & 0x3f) as nat * 0x100 + FromByte(ToByte(clock)) == clock % TWO_14
  {
    StampedHalves(ToByte(high / 256), ToByte(clock / 256));
    NumberBytes(high);
    NumberBytes(clock);
    LowParts(high);
    LowParts(clock);
  }

  lemma TimeLayout(time: nat, clock: nat, node: Octets)
    requires clock < TWO_16 && |node| == 6
    ensures var u := Pack(time, clock, node);
            && FromByte(u[0]) * 0x100_0000 + FromByte(u[1]) * 0x1_0000 + FromByte(u[2]) * 0x100 + FromByte(u[3])
               == time % TWO_32
            && FromByte(u[4]) * 256 + FromByte(u[5]) == time / TWO_32 % TWO_16
  {
    var u := Pack(time, clock, node);
    PlainFields(time, clock, node);
    FourBytes(u);
    TwoBytes(u[4], u[5]);
    assert u[4..6] == [u[4], u[5]];
  }

  /** The layout of section 4.1.2 of RFC 4122, byte by byte: the low 32 bits of the time, the middle 16, the version
      and the high 12, the variant and the 14 bits of the clock sequence, each most significant byte first, and the
      node. */
  lemma Layout(time: nat, clock: nat, node: Octets)
    requires clock < TWO_16 && |node| == 6
    ensures var u := Pack(time, clock, node);
            && u[0] as nat * 0x100_0000 + u[1] as nat * 0x1_0000 + u[2] as nat * 0x100 + u[3] as nat
               == time % 0x1_0000_0000
            && u[4] as nat * 0x100 + u[5] as nat == time / 0x1_0000_0000 % 0x1_0000
            && u[6] >> 4 == 1 && (u[6] & 0x0f) as nat * 0x100 + u[7] as nat == time / 0x1_0000_0000_0000 % 0x1000
            && u[8] >> 6 == 2 && (u[8] & 0x3f) as nat * 0x100 + u[9] as nat == clock % 0x4000
            && u[10..] == node
  {
    var u, high := Pack(time, clock, node), time / TWO_48 % TWO_16;
    PackBytes(time, clock, node);
    TimeLayout(time, clock, node);
    StampedLayout(high, clock);
    ModMod(time / TWO_48);
    assert u[6] == u[6..8][0] && u[7] == u[6..8][1] && u[8] == u[8..10][0] && u[9] == u[8..10][1];
  }

  lemma ModMod(h: nat)
    ensures h % TWO_16 % TWO_12 == h % TWO_12
  {
  }

  lemma EqualBytes(x: bv8, y: bv8)
    requires FromByte(x) == FromByte(y)
    ensures x == y
  {
    NumberOfByte(x);
    NumberOfByte(y);
  }

  /** The low byte and the m values above it depend only on the number modulo 256*m. */
  lemma LowBits(n: nat, m: nat)
    requires m > 0
    ensures n % 256 == n % (256 * m) % 256 && n / 256 % m == n % (256 * m) / 256
  {
    var p := 256 * m;
    var q, r := n / p, n % p;
    var a, b := r / 256, r % 256;
    assert n == q * p + r;
    assert n == (q * m + a) * 256 + b by {
      assert q * p == q * m * 256;
    }
    DivNatural(n, p);
    assert q * m >= 0;
    ModUnique(n, q * m + a, b, 256);
    ModUnique(q * m + a, q, a, m);
  }

  lemma SameBytes(h: nat, k: nat, c: nat, d: nat)
    requires h < TWO_16 && k < TWO_16 && c < TWO_16 && d < TWO_16
    requires h % TWO_12 == k % TWO_12 && c % TWO_14 == d % TWO_14
    ensures VersionByte(ToByte(h / 256), 1) == VersionByte(ToByte(k / 256), 1) && ToByte(h) == ToByte(k)
    ensures VariantByte(ToByte(c / 256)) == VariantByte(ToByte(d / 256)) && ToByte(c) == ToByte(d)
  {
    StampedBytes(h, c);
    StampedBytes(k, d);
    LowBits(h, 16);
    LowBits(k, 16);
    LowBits(c, 64);
    LowBits(d, 64);
    EqualBytes(VersionByte(ToByte(h / 256), 1), VersionByte(ToByte(k / 256), 1));
    EqualBytes(VariantByte(ToByte(c / 256)), VariantByte(ToByte(d / 256)));
  }

  lemma UniqueParts(r: nat, low: nat, mid: nat, high: nat)
    requires low < TWO_32 && mid < TWO_16 && high < TWO_12 && r == low + mid * TWO_32 + high * TWO_48
    ensures low == r % TWO_32 && mid == r / TWO_32 % TWO_16 && high == r / TWO_32 / TWO_16
  {
    ModUnique(r, high * TWO_16 + mid, low, TWO_32);
    ModUnique(high * TWO_16 + mid, high, mid, TWO_16);
  }

  lemma SameFields(s: nat, t: nat)
    requires s % TWO_60 == t % TWO_60
    ensures s % TWO_32 == t % TWO_32 && s / TWO_32 % TWO_16 == t / TWO_32 % TWO_16
    ensures s / TWO_48 % TWO_12 == t / TWO_48 % TWO_12
  {
    SixtyBits(s);
    SixtyBits(t);
    UniqueParts(s % TWO_60, s % TWO_32, s / TWO_32 % TWO_16, s / TWO_48 % TWO_12);
    UniqueParts(t % TWO_60, t % TWO_32, t / TWO_32 % TWO_16, t / TWO_48 % TWO_12);
  }

  lemma PackSame(s: nat, c: nat, t: nat, d: nat, n: Octets)
    requires c < TWO_16 && d < TWO_16 && |n| == 6 && s % TWO_60 == t % TWO_60 && c % TWO_14 == d % TWO_14
    ensures Pack(s, c, n) == Pack(t, d, n)
  {
    var u, v := Pack(s, c, n), Pack(t, d, n);
    PackBytes(s, c, n);
    PackBytes(t, d, n);
    SameFields(s, t);
    ModMod(s / TWO_48);
    ModMod(t / TWO_48);
    SameBytes(s / TWO_48 % TWO_16, t / TWO_48 % TWO_16, c, d);
    assert u == u[..4] + u[4..6] + u[6..8] + u[8..10] + u[10..];
    assert v == v[..4] + v[4..6] + v[6..8] + v[8..10] + v[10..];
  }

  /** Two packed UUIDs are equal exactly when the times agree modulo 2^60, the clock sequences modulo
      2^14, and the nodes. */
  lemma PackEqual(s: nat, c: nat, m: Octets, t: nat, d: nat, n: Octets)
    requires c < TWO_16 && d < TWO_16 && |m| == 6 && |n| == 6
    ensures Pack(s, c, m) == Pack(t, d, n) <==> SameModulo(s, t, TWO_60) && SameModulo(c, d, TWO_14) && m == n
  {
    PackRoundTrip(s, c, m);
    PackRoundTrip(t, d, n);
    if s % TWO_60 == t % TWO_60 && c % TWO_14 == d % TWO_14 && m == n {
      PackSame(s, c, t, d, n);
    }
  }

  // ----- the generator -----

  /** Clock sequence and last time, as getStorage keeps them. */
  datatype Store = Store(clock: nat, last: nat)

  function NextStore(s: Store, timeNow: nat): Store {
    Store(if timeNow <= s.last then (s.clock + 1) % TWO_16 else s.clock, timeNow)
  }

  /** The state after calls of getStorage that found these times, in the order of the lock. */
  function After(s: Store, times: seq<nat>): Store {
    if times == [] then s else NextStore(After(s, times[..|times| - 1]), times[|times| - 1])
  }

  /** How often those calls bumped the clock sequence. */
  function Bumps(s: Store, times: seq<nat>): nat {
    if times == [] then 0 else
    var before := times[..|times| - 1];
    Bumps(s, before) + (if times[|times| - 1] <= After(s, before).last then 1 else 0)
  }

  function Made(s: Store, times: seq<nat>, i: nat, node: Octets): Octets
    requires i < |times| && |node| == 6
  {
    Pack(times[i], After(s, times[..i + 1]).clock, node)
  }

  function Bumped(clock: nat, bumps: nat): (c: nat)
    ensures c < TWO_16
  {
    (clock + bumps) % TWO_16
  }

  lemma {:induction false} ClockCountsBumps(s: Store, times: seq<nat>)
    requires s.clock < TWO_16
    ensures After(s, times).clock == Bumped(s.clock, Bumps(s, times))
  {
    if times != [] {
      ClockCountsBumps(s, times[..|times| - 1]);
    }
  }

  /** (bumps, time) grows lexicographically from call to call. */
  lemma {:induction false} BumpsThenTime(s: Store, times: seq<nat>, i: nat, j: nat)
    requires i < j < |times|
    ensures var b, c := Bumps(s, times[..i + 1]), Bumps(s, times[..j + 1]);
            b < c || (b == c && times[i] < times[j])
  {
    var upto := times[..j + 1];
    assert upto[..|upto| - 1] == times[..j];
    if j > i + 1 {
      BumpsThenTime(s, times, i, j - 1);
    }
    var before := times[..j];
    assert before[|before| - 1] == times[j - 1] && After(s, before).last == times[j - 1];
  }

  predicate SameModulo(a: nat, b: nat, m: nat)
    requires m > 0
  {
    a % m == b % m
  }

  lemma ModuloDifference(a: nat, b: nat)
    ensures SameModulo(a, b, TWO_14) <==> (a - b) % TWO_14 == 0
  {
    assert a == TWO_14 * (a / TWO_14) + a % TWO_14 && b == TWO_14 * (b / TWO_14) + b % TWO_14;
    var d := a / TWO_14 - b / TWO_14;
    assert a - b == TWO_14 * d + (a % TWO_14 - b % TWO_14);
  }

  lemma BumpedLow(clock: nat, b: nat)
    ensures SameModulo(Bumped(clock, b), clock + b, TWO_14)
  {
  }

  lemma BumpedTogether(b: nat, c: nat, clock: nat)
    ensures SameModulo(Bumped(clock, b), Bumped(clock, c), TWO_14) <==> SameModulo(b, c, TWO_14)
  {
    var x, y := Bumped(clock, b), Bumped(clock, c);
    BumpedLow(clock, b);
    BumpedLow(clock, c);
    assert SameModulo(x, y, TWO_14) <==> SameModulo(clock + b, clock + c, TWO_14);
    ModuloDifference(clock + b, clock + c);
    ModuloDifference(b, c);
  }

  lemma StepApart(b: nat, c: nat)
    requires b <= c < b + TWO_14 && SameModulo(b, c, TWO_14)
    ensures b == c
  {
  }

  /** Two UUIDs of one run are equal exactly when their times agree modulo 2^60 and the numbers of bumps
      before them agree modulo 2^14. */
  lemma EqualExactly(s: Store, times: seq<nat>, i: nat, j: nat, node: Octets)
    requires s.clock < TWO_16 && |node| == 6 && i < |times| && j < |times|
    ensures Made(s, times, i, node) == Made(s, times, j, node) <==>
      SameModulo(times[i], times[j], TWO_60) && SameModulo(Bumps(s, times[..i + 1]), Bumps(s, times[..j + 1]), TWO_14)
  {
    ClockCountsBumps(s, times[..i + 1]);
    ClockCountsBumps(s, times[..j + 1]);
    BumpedTogether(Bumps(s, times[..i + 1]), Bumps(s, times[..j + 1]), s.clock);
    PackEqual(times[i], After(s, times[..i + 1]).clock, node, times[j], After(s, times[..j + 1]).clock, node);
  }

  /** So they differ as long as times stay below 2^60 and fewer than 2^14 bumps lie between them. */
  lemma Unique(s: Store, times: seq<nat>, i: nat, j: nat, node: Octets)
    requires s.clock < TWO_16 && |node| == 6 && i < j < |times|
    requires times[i] < TWO_60 && times[j] < TWO_60
    requires Bumps(s, times[..j + 1]) < Bumps(s, times[..i + 1]) + TWO_14
    ensures Made(s, times, i, node) != Made(s, times, j, node)
  {
    EqualExactly(s, times, i, j, node);
    BumpsThenTime(s, times, i, j);
    var b, c := Bumps(s, times[..i + 1]), Bumps(s, times[..j + 1]);
    if Made(s, times, i, node) == Made(s, times, j, node) {
      StepApart(b, c);
      SmallTimes(times[i], times[j]);
    }
  }

  lemma SmallTimes(s: nat, t: nat)
    requires s < TWO_60 && t < TWO_60 && SameModulo(s, t, TWO_60)
    ensures s == t
  {
  }

  method Put(buf: array<bv8>, at: nat, s: Octets)
    requires at + |s| <= buf.Length
    modifies buf
    ensures buf[..] == old(buf[..at]) + s + old(buf[at + |s|..])
  {
    for i := 0 to |s|
      invariant buf[..at] == old(buf[..at]) && buf[at..at + i] == s[..i]
      invariant buf[at + i..] == old(buf[at + i..])
    {
      buf[at + i] := s[i];
    }
  }

  method SetVersion(u: array<bv8>, v: bv8)
    requires u.Length == 16
    modifies u
    ensures u[..] == WithVersion(old(u[..]), v)
  {
    u[6] := (u[6] & 0x0f) | (v << 4);
  }

  method SetVariant(u: array<bv8>)
    requires u.Length == 16
    modifies u
    ensures u[..] == WithVariant(old(u[..]))
  {
    u[8] := (u[8] & 0xbf) | 0x80;
  }

  /** The fields, written into the array in place. */
  method PutFields(u: array<bv8>, time: nat, clock: nat, node: Octets)
    requires u.Length == 16 && |node| == 6
    modifies u
    ensures u[..] == Fields(time, clock, node)
  {
    Put(u, 0, BigEndian(time % TWO_32, 4));
    Put(u, 4, BigEndian(time / TWO_32 % TWO_16, 2));
    Put(u, 6, BigEndian(time / TWO_48 % TWO_16, 2));
    Put(u, 8, BigEndian(clock, 2));
    Put(u, 10, node);
  }

  class Generator {
    var clockSequence: nat
    var lastTime: nat
    const hardwareAddr: Octets
    /** The state at the start and the times found since. */
    ghost const start: Store
    ghost var times: seq<nat>

    ghost predicate Valid()
      reads this
    {
      && |hardwareAddr| == 6 && start.clock < TWO_16
      && Store(clockSequence, lastTime) == After(start, times)
      && clockSequence < TWO_16
    }

    constructor (clock: nat, node: Octets)
      requires clock < TWO_16 && |node| == 6
      ensures Valid() && times == [] && hardwareAddr == node && start == Store(clock, 0)
    {
      clockSequence, lastTime, hardwareAddr := clock, 0, node;
      start, times := Store(clock, 0), [];
    }

    /** getStorage under its lock, with what epochFunc returned. */
    method GetStorage(timeNow: nat) returns (clock: nat)
      requires Valid()
      modifies this
      ensures Valid() && times == old(times) + [timeNow]
      ensures clock == clockSequence == After(start, times).clock
      ensures lastTime == timeNow
      ensures clock == if timeNow <= old(lastTime) then (old(clockSequence) + 1) % 0x1_0000 else old(clockSequence)
    {
      if timeNow <= lastTime {
        clockSequence := (clockSequence + 1) % TWO_16;
      }
      lastTime := timeNow;
      times := times + [timeNow];
      assert times[..|times| - 1] == old(times);
      clock := clockSequence;
    }

    /** NewUUIDV1: the fields are written, then version and variant stamped over them. */
    method NewUUIDV1(timeNow: nat) returns (u: array<bv8>)
      requires Valid() && timeNow < TWO_64
      modifies this
      ensures Valid() && times == old(times) + [timeNow] && fresh(u)
      ensures u[..] == Made(start, times, |times| - 1, hardwareAddr)
    {
      var clock := GetStorage(timeNow);
      assert times[..|times|] == times;
      u := new bv8[16];
      PutFields(u, timeNow, clock, hardwareAddr);
      SetVersion(u, 1);
      SetVariant(u);
    }
  }

  lemma {:induction false} BumpsMonotone(s: Store, times: seq<nat>, n: nat)
    requires n <= |times|
    ensures Bumps(s, times[..n]) <= Bumps(s, times)
  {
    if n < |times| {
      var before := times[..|times| - 1];
      BumpsMonotone(s, before, n);
      assert before[..n] == times[..n];
    } else {
      assert times[..n] == times;
    }
  }

  lemma BumpsBetween(s: Store, times: seq<nat>, n: nat, i: nat, j: nat)
    requires n <= i < j < |times| && Bumps(s, times) < Bumps(s, times[..n]) + TWO_14
    ensures Bumps(s, times[..j + 1]) < Bumps(s, times[..i + 1]) + TWO_14
  {
    BumpsMonotone(s, times, j + 1);
    BumpsMonotone(s, times[..i + 1], n);
    assert times[..i + 1][..n] == times[..n];
  }

  /** The UUIDs of the calls from number n on. */
  ghost predicate AllMade(s: Store, times: seq<nat>, n: nat, made: seq<Octets>, node: Octets) {
    && |node| == 6 && n + |made| <= |times|
    && forall i | 0 <= i < |made| :: made[i] == Made(s, times, n + i, node)
  }

  lemma MadeStays(s: Store, times: seq<nat>, t: nat, i: nat, node: Octets)
    requires i < |times| && |node| == 6
    ensures Made(s, times + [t], i, node) == Made(s, times, i, node)
  {
    assert (times + [t])[..i + 1] == times[..i + 1];
  }

  lemma AllMadeStep(s: Store, times: seq<nat>, t: nat, n: nat, made: seq<Octets>, u: Octets, node: Octets)
    requires AllMade(s, times, n, made, node) && n + |made| == |times|
    requires u == Made(s, times + [t], |times|, node)
    ensures AllMade(s, times + [t], n, made + [u], node)
  {
    forall i | 0 <= i < |made|
      ensures made[i] == Made(s, times + [t], n + i, node)
    {
      MadeStays(s, times, t, n + i, node);
    }
  }

  lemma MadeDiffer(s: Store, times: seq<nat>, n: nat, i: nat, j: nat, node: Octets, u: Octets, v: Octets)
    requires s.clock < TWO_16 && |node| == 6 && n <= i < j < |times| && times[i] < TWO_60 && times[j] < TWO_60
    requires Bumps(s, times) < Bumps(s, times[..n]) + TWO_14
    requires u == Made(s, times, i, node) && v == Made(s, times, j, node)
    ensures u != v
  {
    BumpsBetween(s, times, n, i, j);
    Unique(s, times, i, j, node);
  }

  lemma AllMadeAt(s: Store, times: seq<nat>, n: nat, made: seq<Octets>, node: Octets, i: nat, a: nat)
    requires AllMade(s, times, n, made, node) && i < |made| && a == n + i
    ensures made[i] == Made(s, times, a, node)
  {
  }

  lemma AllDifferent(s: Store, times: seq<nat>, n: nat, made: seq<Octets>, node: Octets)
    requires s.clock < TWO_16 && AllMade(s, times, n, made, node) && n + |made| == |times|
    requires forall i | n <= i < |times| :: times[i] < TWO_60
    requires Bumps(s, times) < Bumps(s, times[..n]) + TWO_14
    ensures forall i, j | 0 <= i < j < |made| :: made[i] != made[j]
  {
    forall i, j | 0 <= i < j < |made|
      ensures made[i] != made[j]
    {
      var a, b := n + i, n + j;
      AllMadeAt(s, times, n, made, node, i, a);
      AllMadeAt(s, times, n, made, node, j, b);
      MadeDiffer(s, times, n, a, b, node, made[i], made[j]);
    }
  }

  /** A whole run of NewUUIDV1: with times below 2^60 and fewer than 2^14 of them not later than the one
      before, no UUID comes out twice. */
  method MakeMany(g: Generator, clock: seq<nat>) returns (made: seq<Octets>)
    requires g.Valid() && forall i | 0 <= i < |clock| :: clock[i] < TWO_60
    modifies g
    ensures g.Valid() && g.times == old(g.times) + clock && |made| == |clock|
    ensures AllMade(g.start, g.times, |old(g.times)|, made, g.hardwareAddr)
    ensures Bumps(g.start, g.times) < Bumps(g.start, old(g.times)) + TWO_14 ==>
      forall i, j | 0 <= i < j < |made| :: made[i] != made[j]
  {
    made := [];
    ghost var before := g.times;
    for k := 0 to |clock|
      invariant g.Valid() && g.times == before + clock[..k] && |made| == k
      invariant AllMade(g.start, g.times, |before|, made, g.hardwareAddr)
    {
      ghost var sofar := g.times;
      var u := g.NewUUIDV1(clock[k]);
      AllMadeStep(g.start, sofar, clock[k], |before|, made, u[..], g.hardwareAddr);
      made := made + [u[..]];
    }
    assert g.times == before + clock && g.times[..|before|] == before;
    if Bumps(g.start, g.times) < Bumps(g.start, before) + TWO_14 {
      AllDifferent(g.start, g.times, |before|, made, g.hardwareAddr);
    }
  }
}
