/** Bytes, big-endian integers and the option type shared by the codecs. */
module Bytes {
  import opened Numbers

  type Octets = seq<bv8>

  datatype Option<+T> = None | Some(value: T)

  lemma Associative<T>(a: seq<T>, b: seq<T>, c: seq<T>)
    ensures a + (b + c) == (a + b) + c
  {
  }

  lemma Parts<T>(s: seq<T>, k: nat)
    requires k <= |s|
    ensures s[..k] + s[k..] == s
  {
  }

  lemma Halves<T>(a: seq<T>, b: seq<T>)
    ensures (a + b)[..|a|] == a && (a + b)[|a|..] == b
  {
  }

  lemma TakeWithin<T>(a: seq<T>, b: seq<T>, m: nat)
    requires m <= |a|
    ensures (a + b)[..m] == a[..m]
  {
  }

  lemma TakeBeyond<T>(a: seq<T>, b: seq<T>, m: nat)
    requires |a| <= m <= |a| + |b|
    ensures (a + b)[..m] == a + b[..m - |a|]
  {
  }

  lemma TakeMore<T>(s: seq<T>, i: nat, j: nat)
    requires i <= j <= |s|
    ensures s[..j] == s[..i] + s[i..j]
  {
  }

  lemma Between<T>(s: seq<T>, i: nat, j: nat, k: nat)
    requires i <= j <= k <= |s|
    ensures s[i..k] == s[i..j] + s[j..k]
  {
  }

  lemma Tail<T>(s: seq<T>, i: nat, j: nat)
    requires i <= j <= |s|
    ensures s[i..] == s[i..j] + s[j..]
  {
  }

  lemma FirstOf<T>(s: seq<T>, k: nat)
    requires k < |s|
    ensures s[..k + 1] == [s[0]] + s[1..][..k]
  {
  }

  lemma Prefix<T>(a: seq<T>, b: seq<T>)
    ensures a <= a + b
  {
  }

  lemma FrontAndLast<T>(s: seq<T>)
    requires s != []
    ensures s[..|s| - 1] + [s[|s| - 1]] == s
  {
  }

  // Slices of slices, element by element.

  lemma TakeSlice<T>(s: seq<T>, m: nat, i: nat, j: nat)
    requires i <= j <= m <= |s|
    ensures s[..m][i..j] == s[i..j]
  {
    forall k | 0 <= k < j - i
      ensures s[..m][i..j][k] == s[i..j][k]
    {
    }
  }

  lemma MiddleParts<T>(a: seq<T>, x: seq<T>, y: seq<T>, rest: seq<T>)
    ensures var s, i, j := a + x + y + rest, |a| + |x|, |a| + |x| + |y|;
            s[..|a|] == a && s[|a|..i] == x && s[i..j] == y && s[j..] == rest
  {
  }

  lemma DropSlice<T>(s: seq<T>, a: nat, i: nat, j: nat)
    requires a <= |s| && i <= j <= |s| - a
    ensures s[a..][i..j] == s[a + i..a + j]
  {
    forall k | 0 <= k < j - i
      ensures s[a..][i..j][k] == s[a + i..a + j][k]
    {
    }
  }

  lemma DropDrop<T>(s: seq<T>, a: nat, b: nat)
    requires a <= |s| && b <= |s| - a
    ensures s[a..][b..] == s[a + b..]
  {
    forall k | 0 <= k < |s| - a - b
      ensures s[a..][b..][k] == s[a + b..][k]
    {
    }
  }

  /** What is left behind two parts in turn, and behind both. */
  lemma DropBoth<T>(s: seq<T>, a: seq<T>, b: seq<T>)
    requires |a| + |b| <= |s|
    ensures s[|a + b|..] == s[|a|..][|b|..]
  {
    DropDrop(s, |a|, |b|);
  }

  /** The low eight bits of a number, Go's `byte(n)`. */
  function ToByte(n: nat): bv8 {
    (n % 256) as bv8
  }

  function FromByte(b: bv8): (n: nat)
    ensures n < 256
  {
    b as nat
  }

  lemma ByteOfNumber(n: nat)
    requires n < 256
    ensures FromByte(ToByte(n)) == n
  {
  }

  lemma NumberIsByte(b: bv8, n: nat)
    requires n == b as nat
    ensures n as bv8 == b
  {
  }

  lemma NumberOfByte(b: bv8)
    ensures ToByte(FromByte(b)) == b
  {
    var n := FromByte(b);
    NumberIsByte(b, n);
    assert n % 256 == n;
  }

  function Pow256(k: nat): (p: nat)
    ensures p > 0
  {
    if k == 0 then 1 else 256 * Pow256(k - 1)
  }

  /** n >> 8*k. */
  function ShiftBytes(n: nat, k: nat): nat {
    DivNatural(n, Pow256(k));
    n / Pow256(k)
  }

  lemma Pow256Values()
    ensures Pow256(1) == 0x100
    ensures Pow256(2) == TWO_16
    ensures Pow256(4) == TWO_32
    ensures Pow256(8) == TWO_64
  {
    assert Pow256(2) == 256 * Pow256(1);
    assert Pow256(3) == 256 * Pow256(2);
    assert Pow256(4) == 256 * Pow256(3);
    assert Pow256(5) == 256 * Pow256(4);
    assert Pow256(6) == 256 * Pow256(5);
    assert Pow256(7) == 256 * Pow256(6);
  }

  /** The k low bytes of n, most significant first. */
  function BigEndian(n: nat, k: nat): (s: Octets)
    ensures |s| == k
  {
    if k == 0 then [] else BigEndian(n / 256, k - 1) + [ToByte(n)]
  }

  function FromBigEndian(s: Octets): nat {
    if s == [] then 0 else FromBigEndian(s[..|s| - 1]) * 256 + FromByte(s[|s| - 1])
  }

  lemma FromBigEndianMore(s: Octets, b: bv8)
    ensures FromBigEndian(s + [b]) == FromBigEndian(s) * 256 + FromByte(b)
  {
    assert (s + [b])[..|s|] == s;
  }

  lemma TwoBytes(a: bv8, b: bv8)
    ensures FromBigEndian([a, b]) == FromByte(a) * 256 + FromByte(b)
  {
    assert [a, b][..1] == [a] && [a][..0] == [];
    assert FromBigEndian([a]) == FromByte(a);
  }

  lemma TwoAhead(s: Octets, n: nat)
    requires n + 2 <= |s|
    ensures FromBigEndian(s[..n + 2]) == FromBigEndian(s[..n]) * 0x1_0000 + FromByte(s[n]) * 0x100 + FromByte(s[n + 1])
  {
    FromBigEndianMore(s[..n], s[n]);
    FromBigEndianMore(s[..n + 1], s[n + 1]);
    assert s[..n] + [s[n]] == s[..n + 1] && s[..n + 1] + [s[n + 1]] == s[..n + 2];
  }

  lemma FourAhead(s: Octets, n: nat)
    requires n + 4 <= |s|
    ensures FromBigEndian(s[..n + 4]) == FromBigEndian(s[..n]) * 0x1_0000_0000
                                         + FromByte(s[n]) * 0x100_0000 + FromByte(s[n + 1]) * 0x1_0000
                                         + FromByte(s[n + 2]) * 0x100 + FromByte(s[n + 3])
  {
    TwoAhead(s, n);
    TwoAhead(s, n + 2);
  }

  lemma FourBytes(s: Octets)
    requires |s| >= 4
    ensures FromBigEndian(s[..4]) == FromByte(s[0]) * 0x100_0000 + FromByte(s[1]) * 0x1_0000
                                     + FromByte(s[2]) * 0x100 + FromByte(s[3])
  {
    FourAhead(s, 0);
    assert FromBigEndian(s[..0]) == 0;
  }

  lemma ModScale(q: nat, r: nat, p: nat)
    requires r < 256 && p > 0
    ensures (q * 256 + r) % (256 * p) == (q % p) * 256 + r
  {
    var d := q / p;
    var m := q % p;
    assert q == d * p + m;
    assert q * 256 + r == d * (256 * p) + (m * 256 + r) by {
      assert d * (256 * p) == (d * p) * 256;
    }
    assert 0 <= m * 256 + r < 256 * p;
    ModUnique(q * 256 + r, d, m * 256 + r, 256 * p);
  }

  lemma ModByBytes(n: nat, p: nat)
    requires p > 0
    ensures n % (256 * p) == (n / 256 % p) * 256 + n % 256
  {
    var q, r := n / 256, n % 256;
    assert n == q * 256 + r;
    ModScale(q, r, p);
  }

  lemma LastByte(n: nat, k: nat)
    requires k > 0
    ensures BigEndian(n, k)[..k - 1] == BigEndian(n / 256, k - 1) && FromByte(BigEndian(n, k)[k - 1]) == n % 256
  {
    ByteOfNumber(n % 256);
  }

  /** Reading k bytes back gives the number modulo 256^k. */
  lemma {:induction false} BigEndianRoundTrip(n: nat, k: nat)
    ensures FromBigEndian(BigEndian(n, k)) == n % Pow256(k)
  {
    if k > 0 {
      BigEndianRoundTrip(n / 256, k - 1);
      LastByte(n, k);
      ModByBytes(n, Pow256(k - 1));
    }
  }

  /** Byte i of the k is the number shifted right by 8*(k-1-i) bits. */
  lemma {:induction false} BigEndianAt(n: nat, k: nat, i: nat)
    requires i < k
    ensures BigEndian(n, k)[i] == ToByte(n / Pow256(k - 1 - i))
  {
    if i < k - 1 {
      BigEndianAt(n / 256, k - 1, i);
      var p := Pow256(k - 2 - i);
      DivDiv(n, p);
    }
  }

  lemma DivDiv(n: nat, p: nat)
    requires p > 0
    ensures (n / 256) / p == n / (256 * p)
  {
    var q, r := n / 256, n % 256;
    var d, m := q / p, q % p;
    assert q == d * p + m;
    assert n == d * (256 * p) + (m * 256 + r) by {
      assert d * (256 * p) == (d * p) * 256;
    }
    ModUnique(n, d, m * 256 + r, 256 * p);
  }

  lemma {:induction false} FromBigEndianBound(s: Octets)
    ensures FromBigEndian(s) < Pow256(|s|)
  {
    if s != [] {
      FromBigEndianBound(s[..|s| - 1]);
    }
  }

  lemma BigEndianFits(n: nat, k: nat)
    requires n < Pow256(k)
    ensures FromBigEndian(BigEndian(n, k)) == n
  {
    BigEndianRoundTrip(n, k);
    ModUnique(n, 0, n, Pow256(k));
  }
}
