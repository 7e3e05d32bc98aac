/** The text form of a UUID: String, and UnmarshalText with everything it accepts. A text is a sequence
    of bytes, written as characters. */
module UuidText {
  import opened Bytes
  import opened Numbers

  /** A byte by its value; no bit operations are needed here. */
  type Byte = n: nat | n < 256

  // ----- hexadecimal digits, as encoding/hex reads and writes them -----

  function HexDigit(n: nat): char
    requires n < 16
  {
    if n < 10 then '0' + n as char else 'a' + (n - 10) as char
  }

  function HexValue(c: char): (v: Option<nat>)
    ensures v.Some? ==> v.value < 16
  {
    if '0' <= c <= '9' then Some((c - '0') as nat)
    else if 'a' <= c <= 'f' then Some((c - 'a') as nat + 10)
    else if 'A' <= c <= 'F' then Some((c - 'A') as nat + 10)
    else None
  }

  /** The sixteen digits, letters in either case. */
  lemma HexValues(c: char, v: nat)
    requires v < 16
    ensures HexValue(c) == Some(v) <==> c == "0123456789abcdef"[v] || c == "0123456789ABCDEF"[v]
  {
  }

  function Lower(c: char): char {
    if 'A' <= c <= 'F' then c - 'A' + 'a' else c
  }

  /** The text starts with p, but for the case of its hexadecimal letters. */
  predicate Starts(text: string, p: string): (b: bool)
    ensures b ==> |p| <= |text|
  {
    p == [] || (text != [] && Lower(text[0]) == p[0] && Starts(text[1..], p[1..]))
  }

  lemma {:induction false} StartsSplit(text: string, p: string, q: string)
    ensures Starts(text, p + q) <==> |p| <= |text| && Starts(text, p) && Starts(text[|p|..], q)
  {
    if p == [] {
      assert p + q == q && text[|p|..] == text;
    } else {
      assert (p + q)[0] == p[0] && (p + q)[1..] == p[1..] + q;
      if text != [] {
        StartsSplit(text[1..], p[1..], q);
        if |p| <= |text| {
          assert text[1..][|p| - 1..] == text[|p|..];
        }
      }
    }
  }

  /** Only the first bytes of the text matter. */
  lemma {:induction false} StartsLocal(text: string, p: string)
    requires |p| <= |text|
    ensures Starts(text[..|p|], p) <==> Starts(text, p)
  {
    if p != [] {
      assert text[..|p|][1..] == text[1..][..|p| - 1];
      StartsLocal(text[1..], p[1..]);
    }
  }

  lemma HexDigitValue(n: nat)
    requires n < 16
    ensures HexValue(HexDigit(n)) == Some(n) && HexDigit(n) != '-'
  {
  }

  lemma HexValueDigit(c: char)
    requires HexValue(c).Some?
    ensures HexValue(c).value < 16 && HexDigit(HexValue(c).value) == Lower(c) && c != '-'
  {
  }

  function Hex(s: seq<Byte>): (t: string)
    ensures |t| == 2 * |s|
  {
    if s == [] then [] else
    [HexDigit(s[0] / 16), HexDigit(s[0] % 16)] + Hex(s[1..])
  }

  function PairByte(x: char, y: char): Byte
    requires HexValue(x).Some? && HexValue(y).Some?
  {
    HexValue(x).value * 16 + HexValue(y).value
  }

  /** What hex.Decode wrote, and whether it got to the end. */
  datatype Decoded = Decoded(bytes: seq<Byte>, ok: bool)

  function PairValue(x: char, y: char): Option<Byte> {
    if HexValue(x).Some? && HexValue(y).Some? then Some(PairByte(x, y)) else None
  }

  /** Decoding the first k pairs of digits, up to the first pair that has no value. */
  function Pairs(t: string, k: nat): (d: Decoded)
    requires 2 * k <= |t|
    ensures |d.bytes| <= k && (d.ok ==> |d.bytes| == k)
  {
    if k == 0 then Decoded([], true)
    else
      var d := Pairs(t, k - 1);
      if !d.ok then d
      else
        match PairValue(t[2 * k - 2], t[2 * k - 1])
        case None => Decoded(d.bytes, false)
        case Some(b) => Decoded(d.bytes + [b], true)
  }

  lemma {:induction false} PairsStuck(t: string, i: nat, k: nat)
    requires i <= k && 2 * k <= |t| && !Pairs(t, i).ok
    ensures Pairs(t, k) == Pairs(t, i)
  {
    if i < k {
      PairsStuck(t, i, k - 1);
    }
  }

  /** The bytes written are those of the pairs before the first that has no value. */
  lemma {:induction false} PairsExactly(t: string, k: nat)
    requires 2 * k <= |t|
    ensures var d := Pairs(t, k);
            && (forall i | 0 <= i < |d.bytes| :: PairValue(t[2 * i], t[2 * i + 1]) == Some(d.bytes[i]))
            && (d.ok <==> |d.bytes| == k)
            && (!d.ok ==> PairValue(t[2 * |d.bytes|], t[2 * |d.bytes| + 1]) == None)
  {
    if k > 0 {
      PairsExactly(t, k - 1);
    }
  }

  function Unhex(t: string): (d: Decoded)
    requires |t| % 2 == 0
    ensures 2 * |d.bytes| <= |t| && (d.ok ==> 2 * |d.bytes| == |t|)
  {
    Pairs(t, |t| / 2)
  }

  /** One byte is written as two digits, read back in either case. */
  lemma PairReads(b: Byte, x: char, y: char)
    requires Lower(x) == HexDigit(b / 16) && Lower(y) == HexDigit(b % 16)
    ensures HexValue(x).Some? && HexValue(y).Some? && PairByte(x, y) == b
  {
    var n := b;
    HexDigitValue(n / 16);
    HexDigitValue(n % 16);
    assert HexValue(x) == HexValue(Lower(x)) && HexValue(y) == HexValue(Lower(y));
    assert n / 16 * 16 + n % 16 == n;
  }

  lemma PairBack(x: char, y: char)
    requires HexValue(x).Some? && HexValue(y).Some?
    ensures var n := PairByte(x, y);
            n / 16 < 16 && HexDigit(n / 16) == Lower(x) && HexDigit(n % 16) == Lower(y)
  {
    var a, b := HexValue(x).value, HexValue(y).value;
    HexValueDigit(x);
    HexValueDigit(y);
    ModUnique(a * 16 + b, a, b, 16);
  }

  lemma StartsPair(t: string, a: char, b: char, rest: string)
    requires |t| >= 2
    ensures Starts(t, [a, b] + rest) <==> Lower(t[0]) == a && Lower(t[1]) == b && Starts(t[2..], rest)
  {
    var p := [a, b] + rest;
    assert p[1..] == [b] + rest && p[1..][1..] == rest && t[1..][1..] == t[2..];
  }

  lemma {:induction false} StartsAt(t: string, p: string, i: nat)
    requires Starts(t, p) && i < |p|
    ensures Lower(t[i]) == p[i]
  {
    if i > 0 {
      StartsAt(t[1..], p[1..], i - 1);
    }
  }

  lemma {:induction false} HexAt(s: seq<Byte>, i: nat)
    requires i < |s|
    ensures Hex(s)[2 * i] == HexDigit(s[i] / 16) && Hex(s)[2 * i + 1] == HexDigit(s[i] % 16)
  {
    if i > 0 {
      HexAt(s[1..], i - 1);
    }
  }

  lemma {:induction false} HexAppend(s: seq<Byte>, t: seq<Byte>)
    ensures Hex(s + t) == Hex(s) + Hex(t)
  {
    if s == [] {
      assert s + t == t;
    } else {
      assert (s + t)[1..] == s[1..] + t;
      HexAppend(s[1..], t);
    }
  }

  lemma PairReadsAt(t: string, s: seq<Byte>, i: nat)
    requires Starts(t, Hex(s)) && i < |s|
    ensures PairValue(t[2 * i], t[2 * i + 1]) == Some(s[i])
  {
    HexAt(s, i);
    StartsAt(t, Hex(s), 2 * i);
    StartsAt(t, Hex(s), 2 * i + 1);
    PairReads(s[i], t[2 * i], t[2 * i + 1]);
  }

  lemma {:induction false} PairsRead(t: string, s: seq<Byte>, k: nat)
    requires Starts(t, Hex(s)) && k <= |s|
    ensures Pairs(t, k) == Decoded(s[..k], true)
  {
    if k > 0 {
      PairsRead(t, s, k - 1);
      PairReadsAt(t, s, k - 1);
      assert s[..k] == s[..k - 1] + [s[k - 1]];
    }
  }

  /** The hexadecimal form is read back, in either case. */
  lemma HexReads(t: string, s: seq<Byte>)
    requires |t| == 2 * |s| && Starts(t, Hex(s))
    ensures Unhex(t) == Decoded(s, true)
  {
    var n := |s|;
    assert |t| / 2 == n && s[..n] == s;
    PairsRead(t, s, n);
  }

  lemma OnePair(t: string, b: Byte)
    requires |t| >= 2 && PairValue(t[0], t[1]) == Some(b)
    ensures Starts(t, Hex([b]))
  {
    PairBack(t[0], t[1]);
    StartsPair(t, HexDigit(b / 16), HexDigit(b % 16), []);
    assert [b][1..] == [];
  }

  lemma {:induction false} PairsOnly(t: string, k: nat)
    requires 2 * k <= |t| && Pairs(t, k).ok
    ensures Starts(t, Hex(Pairs(t, k).bytes))
  {
    if k > 0 {
      PairsOnly(t, k - 1);
      var sofar, b := Pairs(t, k - 1).bytes, PairValue(t[2 * k - 2], t[2 * k - 1]).value;
      OnePair(t[2 * k - 2..], b);
      StartsSplit(t, Hex(sofar), Hex([b]));
      HexAppend(sofar, [b]);
    }
  }

  /** What is decoded is the hexadecimal form of the result, but for case. */
  lemma UnhexOnly(t: string)
    requires |t| % 2 == 0 && Unhex(t).ok
    ensures Starts(t, Hex(Unhex(t).bytes))
  {
    PairsOnly(t, |t| / 2);
  }

  // ----- UnmarshalText -----

  datatype Outcome = Ok | Malformed | Panic

  /** The outcome and the bytes written into the UUID before it. */
  datatype Parsed = Parsed(outcome: Outcome, bytes: seq<Byte>)

  const URN := "urn:uuid:"

  predicate GroupsOk(gs: seq<nat>) {
    forall i | 0 <= i < |gs| :: gs[i] > 0 && gs[i] % 2 == 0
  }

  function SkipDash(text: string): string {
    if text != [] && text[0] == '-' then text[1..] else text
  }

  /** What reading one group wrote, and the text behind it. */
  datatype Group = Group(outcome: Outcome, bytes: seq<Byte>, rest: string)

  /** One pass of the loop over the groups. `beyond` holds the bytes between the length and the capacity
      of the text, which `text[:n]` can reach and `text[n:]` cannot. */
  function ReadGroup(text: string, beyond: string, g: nat): (r: Group)
    requires g % 2 == 0
    ensures 2 * |r.bytes| <= g && (r.outcome == Ok ==> 2 * |r.bytes| == g)
  {
    if text == [] then Group(Panic, [], text)
    else
      var t := SkipDash(text);
      if |t| + |beyond| < g then Group(Panic, [], t)
      else
        var d := Unhex((t + beyond)[..g]);
        if !d.ok then Group(Malformed, d.bytes, t)
        else if |t| < g then Group(Panic, d.bytes, t)
        else Group(Ok, d.bytes, t[g..])
  }

  /** The loop over the groups. */
  function ReadGroups(text: string, beyond: string, gs: seq<nat>): Parsed
    requires GroupsOk(gs)
  {
    if gs == [] then Parsed(Ok, [])
    else
      var first := ReadGroup(text, beyond, gs[0]);
      if first.outcome != Ok then Parsed(first.outcome, first.bytes)
      else
        var others := ReadGroups(first.rest, beyond, gs[1..]);
        Parsed(others.outcome, first.bytes + others.bytes)
  }

  function Body(text: string): string {
    if |text| >= 9 && text[..9] == URN then text[9..]
    else if text != [] && text[0] == '{' then text[1..]
    else text
  }

  /** What may stand in front of the digits: nothing, "urn:uuid:" in lower case, or a brace. */
  lemma PrefixSkipped(text: string)
    ensures text == "urn:uuid:" + Body(text) || text == "{" + Body(text) || text == Body(text)
    ensures text == Body(text) ==> !("urn:uuid:" <= text) && !("{" <= text)
  {
    assert |URN| == 9;
    assert "urn:uuid:" <= text ==> text[..9] == URN;
    if |text| >= 9 {
      Parts(text, 9);
    }
  }

  function Unmarshal(text: string, beyond: string, byteGroups: seq<nat>): Parsed
    requires GroupsOk(byteGroups)
  {
    if |text| < 32 then Parsed(Malformed, []) else ReadGroups(Body(text), beyond, byteGroups)
  }

  // ----- what is accepted -----

  function Sum(gs: seq<nat>): nat {
    if gs == [] then 0 else gs[0] + Sum(gs[1..])
  }

  function Dash(dash: bool): string {
    if dash then "-" else ""
  }

  function OneGroup(dash: bool, s: seq<Byte>): string {
    Dash(dash) + Hex(s)
  }

  /** Bytes laid out in groups of hexadecimal digits, each group with or without a dash in front. */
  function Laid(gs: seq<nat>, dashes: seq<bool>, s: seq<Byte>): string
    requires |dashes| == |gs| && GroupsOk(gs) && 2 * |s| == Sum(gs)
  {
    if gs == [] then []
    else
      var n := gs[0] / 2;
      OneGroup(dashes[0], s[..n]) + Laid(gs[1..], dashes[1..], s[n..])
  }

  lemma {:induction false} HexStart(s: seq<Byte>)
    requires s != []
    ensures Hex(s)[0] != '-'
  {
    HexDigitValue(s[0] / 16);
  }

  /** The first group of a text that starts, but for case, with a dash or none and digits of s. */
  lemma FirstGroup(text: string, beyond: string, dash: bool, s: seq<Byte>)
    requires s != [] && Starts(text, Dash(dash) + Hex(s))
    ensures var k := |Dash(dash)|;
            && k + 2 * |s| <= |text| && SkipDash(text) == text[k..]
            && Unhex((text[k..] + beyond)[..2 * |s|]) == Decoded(s, true)
  {
    var k, g := |Dash(dash)|, 2 * |s|;
    StartsSplit(text, Dash(dash), Hex(s));
    HexStart(s);
    var t := text[k..];
    assert Lower(t[0]) == Hex(s)[0];
    TakeWithin(t, beyond, g);
    StartsLocal(t, Hex(s));
    HexReads(t[..g], s);
  }

  lemma GroupIsRead(text: string, beyond: string, dash: bool, s: seq<Byte>)
    requires s != [] && Starts(text, OneGroup(dash, s))
    ensures ReadGroup(text, beyond, 2 * |s|) == Group(Ok, s, text[|OneGroup(dash, s)|..])
  {
    FirstGroup(text, beyond, dash, s);
    DropBoth(text, Dash(dash), Hex(s));
  }

  /** A text that starts with a group laid out has it read. */
  lemma LaidIsRead(text: string, beyond: string, dash: bool, s: seq<Byte>, rest: string)
    requires s != [] && Starts(text, OneGroup(dash, s) + rest)
    ensures var first := ReadGroup(text, beyond, 2 * |s|);
            && first.outcome == Ok && first.bytes == s
            && Starts(first.rest, rest) && text[|OneGroup(dash, s) + rest|..] == first.rest[|rest|..]
  {
    StartsSplit(text, OneGroup(dash, s), rest);
    GroupIsRead(text, beyond, dash, s);
    DropBoth(text, OneGroup(dash, s), rest);
  }

  lemma LaidUnfold(gs: seq<nat>, dashes: seq<bool>, s: seq<Byte>)
    requires gs != [] && |dashes| == |gs| && GroupsOk(gs) && 2 * |s| == Sum(gs)
    ensures var h := gs[0] / 2;
            2 * h == gs[0] && 0 < h <= |s| && 2 * |s[h..]| == Sum(gs[1..])
            && Laid(gs, dashes, s) == OneGroup(dashes[0], s[..h]) + Laid(gs[1..], dashes[1..], s[h..])
  {
  }

  /** A layout is read back, in either case, whatever follows it. */
  lemma {:induction false} LaidReads(text: string, beyond: string, gs: seq<nat>, dashes: seq<bool>, s: seq<Byte>)
    requires |dashes| == |gs| && GroupsOk(gs) && 2 * |s| == Sum(gs)
    requires Starts(text, Laid(gs, dashes, s))
    ensures ReadGroups(text, beyond, gs) == Parsed(Ok, s)
    decreases |gs|
  {
    if gs != [] {
      var h := gs[0] / 2;
      LaidUnfold(gs, dashes, s);
      LaidIsRead(text, beyond, dashes[0], s[..h], Laid(gs[1..], dashes[1..], s[h..]));
      LaidReads(ReadGroup(text, beyond, gs[0]).rest, beyond, gs[1..], dashes[1..], s[h..]);
      Parts(s, h);
    }
  }

  lemma LaidStep(gs: seq<nat>, dash: bool, ds: seq<bool>, first: seq<Byte>, others: seq<Byte>)
    requires gs != [] && GroupsOk(gs) && |ds| == |gs| - 1 && 2 * |first| == gs[0] && 2 * |others| == Sum(gs[1..])
    ensures Laid(gs, [dash] + ds, first + others) == OneGroup(dash, first) + Laid(gs[1..], ds, others)
  {
    var s := first + others;
    assert s[..gs[0] / 2] == first && s[gs[0] / 2..] == others;
    assert ([dash] + ds)[1..] == ds;
  }

  lemma GroupIsLaid(text: string, beyond: string, g: nat)
    requires g % 2 == 0 && ReadGroup(text, beyond, g).outcome == Ok
    ensures text != []
    ensures var first, group := ReadGroup(text, beyond, g), OneGroup(text[0] == '-', ReadGroup(text, beyond, g).bytes);
            Starts(text, group) && first.rest == text[|group|..]
  {
    var t, dash, digits := SkipDash(text), text[0] == '-', Hex(ReadGroup(text, beyond, g).bytes);
    TakeWithin(t, beyond, g);
    UnhexOnly(t[..g]);
    StartsLocal(t, digits);
    StartsSplit(text, Dash(dash), digits);
    DropBoth(text, Dash(dash), digits);
  }

  /** A group that is read is the front of the text, laid out. */
  lemma ReadIsLaid(text: string, beyond: string, g: nat, rest: string)
    requires g % 2 == 0 && ReadGroup(text, beyond, g).outcome == Ok && Starts(ReadGroup(text, beyond, g).rest, rest)
    ensures text != []
    ensures var first, group := ReadGroup(text, beyond, g), OneGroup(text[0] == '-', ReadGroup(text, beyond, g).bytes);
            Starts(text, group + rest) && text[|group + rest|..] == first.rest[|rest|..]
  {
    var group := OneGroup(text[0] == '-', ReadGroup(text, beyond, g).bytes);
    GroupIsLaid(text, beyond, g);
    StartsSplit(text, group, rest);
    DropBoth(text, group, rest);
  }

  /** And nothing else is. */
  lemma {:induction false} OnlyLaid(text: string, beyond: string, gs: seq<nat>) returns (dashes: seq<bool>)
    requires GroupsOk(gs) && ReadGroups(text, beyond, gs).outcome == Ok
    ensures |dashes| == |gs| && 2 * |ReadGroups(text, beyond, gs).bytes| == Sum(gs)
    ensures Starts(text, Laid(gs, dashes, ReadGroups(text, beyond, gs).bytes))
    decreases |gs|
  {
    if gs == [] {
      dashes := [];
    } else {
      var first := ReadGroup(text, beyond, gs[0]);
      var others := ReadGroups(first.rest, beyond, gs[1..]).bytes;
      var ds := OnlyLaid(first.rest, beyond, gs[1..]);
      dashes := [text[0] == '-'] + ds;
      LaidStep(gs, text[0] == '-', ds, first.bytes, others);
      ReadIsLaid(text, beyond, gs[0], Laid(gs[1..], ds, others));
    }
  }

  /** The text starts, but for case, with s laid out in the groups. */
  ghost predicate StartsLaid(text: string, gs: seq<nat>, s: seq<Byte>)
    requires GroupsOk(gs)
  {
    2 * |s| == Sum(gs) && exists dashes: seq<bool> :: |dashes| == |gs| && Starts(text, Laid(gs, dashes, s))
  }

  lemma ReadsExactly(text: string, beyond: string, gs: seq<nat>, s: seq<Byte>)
    requires GroupsOk(gs)
    ensures ReadGroups(text, beyond, gs) == Parsed(Ok, s) <==> StartsLaid(text, gs, s)
  {
    if ReadGroups(text, beyond, gs) == Parsed(Ok, s) {
      var dashes := OnlyLaid(text, beyond, gs);
    }
    if StartsLaid(text, gs, s) {
      var dashes: seq<bool> :| |dashes| == |gs| && Starts(text, Laid(gs, dashes, s));
      LaidReads(text, beyond, gs, dashes, s);
    }
  }

  /** A text is read as u exactly when it has at least 32 bytes and, after an optional "urn:uuid:" or
      brace, starts with u laid out in the groups, in either case; what follows does not matter. */
  lemma AcceptsExactly(text: string, beyond: string, gs: seq<nat>, u: seq<Byte>)
    requires GroupsOk(gs)
    ensures Unmarshal(text, beyond, gs) == Parsed(Ok, u) <==> |text| >= 32 && StartsLaid(Body(text), gs, u)
  {
    ReadsExactly(Body(text), beyond, gs, u);
  }

  // ----- the forms String and RFC 4122 section 3 give -----

  function String(u: seq<Byte>): (t: string)
    requires |u| == 16
    ensures |t| == 36
  {
    Hex(u[..4]) + "-" + Hex(u[4..6]) + "-" + Hex(u[6..8]) + "-" + Hex(u[8..10]) + "-" + Hex(u[10..])
  }

  const DIGITS := "0123456789abcdef"

  /** Where byte i of a UUID stands in its text: behind two digits for each byte before it, and the dashes so far. */
  function Place(i: nat): nat {
    2 * i + if i < 4 then 0 else if i < 6 then 1 else if i < 8 then 2 else if i < 10 then 3 else 4
  }

  /** The layout of String: dashes at 8, 13, 18 and 23, and between them the bytes, two lower-case digits each. */
  lemma StringLayout(u: seq<Byte>, i: nat)
    requires |u| == 16 && i < 16
    ensures var t := String(u);
            && |t| == 36 && t[8] == t[13] == t[18] == t[23] == '-'
            && t[Place(i)] == DIGITS[u[i] / 16] && t[Place(i) + 1] == DIGITS[u[i] % 16]
  {
    var t := String(u);
    StringParts(Hex(u[..4]), Hex(u[4..6]), Hex(u[6..8]), Hex(u[8..10]), Hex(u[10..]));
    if i < 4 {
      HexPlaced(t, u[..4], 0, i);
    } else if i < 6 {
      HexPlaced(t, u[4..6], 9, i - 4);
    } else if i < 8 {
      HexPlaced(t, u[6..8], 14, i - 6);
    } else if i < 10 {
      HexPlaced(t, u[8..10], 19, i - 8);
    } else {
      HexPlaced(t, u[10..], 24, i - 10);
    }
  }

  lemma HexPlaced(t: string, s: seq<Byte>, at: nat, j: nat)
    requires at + 2 * |s| <= |t| && t[at..at + 2 * |s|] == Hex(s) && j < |s|
    ensures t[at + 2 * j] == DIGITS[s[j] / 16] && t[at + 2 * j + 1] == DIGITS[s[j] % 16]
  {
    HexAt(s, j);
    DigitIsListed(s[j] / 16);
    DigitIsListed(s[j] % 16);
    var part := t[at..at + 2 * |s|];
    assert part[2 * j] == t[at + 2 * j] && part[2 * j + 1] == t[at + 2 * j + 1];
  }

  lemma DigitIsListed(n: nat)
    requires n < 16
    ensures HexDigit(n) == DIGITS[n]
  {
  }

  lemma StringParts(a: string, b: string, c: string, d: string, e: string)
    requires |a| == 8 && |b| == |c| == |d| == 4 && |e| == 12
    ensures var t := a + "-" + b + "-" + c + "-" + d + "-" + e;
            && |t| == 36 && t[8] == t[13] == t[18] == t[23] == '-'
            && t[..8] == a && t[9..13] == b && t[14..18] == c && t[19..23] == d && t[24..] == e
  {
  }

  predicate Plain(p: string) {
    forall i | 0 <= i < |p| :: Lower(p[i]) == p[i]
  }

  lemma {:induction false} StartsItself(p: string, rest: string)
    requires Plain(p)
    ensures Starts(p + rest, p)
  {
    if p != [] {
      assert (p + rest)[1..] == p[1..] + rest;
      StartsItself(p[1..], rest);
    }
  }

  lemma PlainDigit(n: nat)
    requires n < 16
    ensures Lower(HexDigit(n)) == HexDigit(n) && HexDigit(n) != '{' && HexDigit(n) != 'u'
  {
  }

  lemma {:induction false} PlainHex(s: seq<Byte>)
    ensures Plain(Hex(s))
  {
    if s != [] {
      PlainDigit(s[0] / 16);
      PlainDigit(s[0] % 16);
      PlainHex(s[1..]);
    }
  }

  lemma {:induction false} PlainLaid(gs: seq<nat>, dashes: seq<bool>, s: seq<Byte>)
    requires |dashes| == |gs| && GroupsOk(gs) && 2 * |s| == Sum(gs)
    ensures Plain(Laid(gs, dashes, s))
  {
    if gs != [] {
      var h := gs[0] / 2;
      LaidUnfold(gs, dashes, s);
      PlainHex(s[..h]);
      PlainLaid(gs[1..], dashes[1..], s[h..]);
    }
  }

  /** The groups of String: 8, 4, 4, 4 and 12 digits. */
  predicate IsUuid(gs: seq<nat>) {
    |gs| == 5 && gs[0] == 8 && gs[1] == 4 && gs[2] == 4 && gs[3] == 4 && gs[4] == 12
  }

  lemma SumOfGroups(gs: seq<nat>)
    requires IsUuid(gs)
    ensures GroupsOk(gs) && Sum(gs) == 32
  {
    assert gs[1..][1..] == gs[2..] && gs[2..][1..] == gs[3..] && gs[3..][1..] == gs[4..] && gs[4..][1..] == [];
    assert Sum(gs[4..]) == 12;
    assert Sum(gs[3..]) == 16;
    assert Sum(gs[2..]) == 20;
    assert Sum(gs[1..]) == 24;
  }

  lemma GroupsTail(gs: seq<nat>)
    requires gs != [] && GroupsOk(gs)
    ensures GroupsOk(gs[1..]) && Sum(gs) == gs[0] + Sum(gs[1..])
  {
    forall i | 0 <= i < |gs| - 1
      ensures gs[1..][i] > 0 && gs[1..][i] % 2 == 0
    {
      assert gs[1..][i] == gs[i + 1];
    }
  }

  lemma GroupOff(gs: seq<nat>, d: seq<bool>, s: seq<Byte>, gs': seq<nat>, d': seq<bool>,
                 first: seq<Byte>, s': seq<Byte>)
    requires gs != [] && |d| == |gs| && GroupsOk(gs) && 2 * |s| == Sum(gs)
    requires gs' == gs[1..] && d' == d[1..] && s == first + s' && 2 * |first| == gs[0]
    ensures GroupsOk(gs') && |d'| == |gs'| && 2 * |s'| == Sum(gs')
    ensures Laid(gs, d, s) == OneGroup(d[0], first) + Laid(gs', d', s')
  {
    GroupsTail(gs);
    assert d == [d[0]] + d';
    LaidStep(gs, d[0], d', first, s');
  }

  lemma LastGroup(gs: seq<nat>, d: seq<bool>, s: seq<Byte>)
    requires |gs| == |d| == 1 && GroupsOk(gs) && 2 * |s| == Sum(gs)
    ensures Laid(gs, d, s) == OneGroup(d[0], s)
  {
    GroupOff(gs, d, s, [], [], s, []);
    assert Laid([], [], []) == [];
  }

  lemma FiveGroups(gs: seq<nat>, d: seq<bool>, u: seq<Byte>)
    requires IsUuid(gs) && |d| == 5 && |u| == 16
    ensures GroupsOk(gs) && Sum(gs) == 32
    ensures Laid(gs, d, u) == OneGroup(d[0], u[..4]) + (OneGroup(d[1], u[4..6]) + (OneGroup(d[2], u[6..8])
                              + (OneGroup(d[3], u[8..10]) + OneGroup(d[4], u[10..]))))
  {
    SumOfGroups(gs);
    GroupOff(gs, d, u, gs[1..], d[1..], u[..4], u[4..]);
    GroupOff(gs[1..], d[1..], u[4..], gs[2..], d[2..], u[4..6], u[6..]);
    GroupOff(gs[2..], d[2..], u[6..], gs[3..], d[3..], u[6..8], u[8..]);
    GroupOff(gs[3..], d[3..], u[8..], gs[4..], d[4..], u[8..10], u[10..]);
    LastGroup(gs[4..], d[4..], u[10..]);
  }

  lemma StringIsLaid(gs: seq<nat>, u: seq<Byte>)
    requires IsUuid(gs) && |u| == 16
    ensures GroupsOk(gs) && Sum(gs) == 32 && Laid(gs, [false, true, true, true, true], u) == String(u)
  {
    FiveGroups(gs, [false, true, true, true, true], u);
    JoinDashed(Hex(u[..4]), Hex(u[4..6]), Hex(u[6..8]), Hex(u[8..10]), Hex(u[10..]));
  }

  lemma JoinDashed(a: string, b: string, c: string, d: string, e: string)
    ensures "" + a + ("-" + b + ("-" + c + ("-" + d + ("-" + e)))) == a + "-" + b + "-" + c + "-" + d + "-" + e
  {
  }

  lemma JoinPlain(a: string, b: string, c: string, d: string, e: string)
    ensures "" + a + ("" + b + ("" + c + ("" + d + ("" + e)))) == a + (b + (c + (d + e)))
  {
  }

  lemma DigitsAreLaid(gs: seq<nat>, u: seq<Byte>)
    requires IsUuid(gs) && |u| == 16
    ensures GroupsOk(gs) && Sum(gs) == 32 && Laid(gs, [false, false, false, false, false], u) == Hex(u)
  {
    var v0, v1, v2 := u[4..], u[6..], u[8..];
    FiveGroups(gs, [false, false, false, false, false], u);
    JoinPlain(Hex(u[..4]), Hex(u[4..6]), Hex(u[6..8]), Hex(u[8..10]), Hex(u[10..]));
    Tail(u, 8, 10);
    Tail(u, 6, 8);
    Tail(u, 4, 6);
    Parts(u, 4);
    HexAppend(u[8..10], u[10..]);
    HexAppend(u[6..8], v2);
    HexAppend(u[4..6], v1);
    HexAppend(u[..4], v0);
  }

  lemma NotUrn(f: string)
    requires |f| >= 9 && f[0] != 'u'
    ensures f[..9] != URN
  {
    assert URN[0] == 'u' && f[..9][0] == f[0];
  }

  /** The forms a caller may write, each read back whatever bytes follow. */
  function Forms(t: string, rest: string): seq<string> {
    [t + rest, "{" + t + rest, "{" + t + "}" + rest, URN + t + rest]
  }

  lemma FormBody(t: string, rest: string, i: nat)
    requires |t| >= 32 && t[0] != '{' && t[0] != 'u' && i < 4
    ensures |Forms(t, rest)[i]| >= 32
    ensures Body(Forms(t, rest)[i]) == t + if i == 2 then "}" + rest else rest
  {
    var f := Forms(t, rest)[i];
    if i == 3 {
      assert f[..9] == URN && f[9..] == t + rest;
    } else {
      NotUrn(f);
      assert i != 0 ==> f[1..] == t + if i == 2 then "}" + rest else rest;
    }
  }

  /** UnmarshalText gives back every value from its String form and from its 32 digits without dashes,
      plain, after a brace, in braces, or after "urn:uuid:", with anything behind it. */
  lemma TextRoundTrip(gs: seq<nat>, u: seq<Byte>, rest: string, beyond: string)
    requires IsUuid(gs) && |u| == 16
    ensures GroupsOk(gs)
    ensures forall i: nat | i < 4 :: Unmarshal(Forms(String(u), rest)[i], beyond, gs) == Parsed(Ok, u)
    ensures forall i: nat | i < 4 :: Unmarshal(Forms(Hex(u), rest)[i], beyond, gs) == Parsed(Ok, u)
  {
    StringIsLaid(gs, u);
    DigitsAreLaid(gs, u);
    var dashed, plain := [false, true, true, true, true], [false, false, false, false, false];
    PlainLaid(gs, dashed, u);
    PlainLaid(gs, plain, u);
    PlainDigit(u[0] / 16);
    assert Hex(u)[0] == HexDigit(u[0] / 16) && String(u)[0] == Hex(u[..4])[0] == HexDigit(u[0] / 16);
    forall i: nat | i < 4
      ensures Unmarshal(Forms(String(u), rest)[i], beyond, gs) == Parsed(Ok, u)
      ensures Unmarshal(Forms(Hex(u), rest)[i], beyond, gs) == Parsed(Ok, u)
    {
      var tail := if i == 2 then "}" + rest else rest;
      FormBody(String(u), rest, i);
      FormBody(Hex(u), rest, i);
      StartsItself(String(u), tail);
      StartsItself(Hex(u), tail);
      LaidReads(String(u) + tail, beyond, gs, dashed, u);
      LaidReads(Hex(u) + tail, beyond, gs, plain, u);
    }
  }

  // ----- texts it cannot cope with -----

  /** With room for all digits and dashes there is no panic. */
  lemma {:induction false} LongEnough(text: string, beyond: string, gs: seq<nat>)
    requires GroupsOk(gs) && |text| >= Sum(gs) + |gs|
    ensures ReadGroups(text, beyond, gs).outcome != Panic
  {
    if gs != [] {
      var t, g := SkipDash(text), gs[0];
      assert Sum(gs) == g + Sum(gs[1..]);
      if Unhex((t + beyond)[..g]).ok {
        LongEnough(t[g..], beyond, gs[1..]);
      }
    }
  }

  predicate AllHex(t: string) {
    forall i | 0 <= i < |t| :: HexValue(t[i]).Some?
  }

  lemma {:induction false} PairsAll(t: string, k: nat)
    requires AllHex(t) && 2 * k <= |t|
    ensures Pairs(t, k).ok
  {
    if k > 0 {
      PairsAll(t, k - 1);
    }
  }

  lemma {:induction false} AllPairs(t: string, k: nat, i: nat)
    requires 2 * k <= |t| && Pairs(t, k).ok && i < 2 * k
    ensures HexValue(t[i]).Some?
  {
    if i < 2 * k - 2 {
      AllPairs(t, k - 1, i);
    }
  }

  /** Decoding gets to the end exactly on digits. */
  lemma DecodesExactly(t: string)
    requires |t| % 2 == 0
    ensures Unhex(t).ok <==> AllHex(t)
  {
    var k := |t| / 2;
    if AllHex(t) {
      PairsAll(t, k);
    }
    if Unhex(t).ok {
      forall i | 0 <= i < |t|
        ensures HexValue(t[i]).Some?
      {
        AllPairs(t, k, i);
      }
    }
  }

  /** At the start of a group of g digits the text is at its end, or has fewer than g bytes behind an
      optional dash and the bytes up to its capacity either do not make up for them or are digits. */
  predicate RunsOut(text: string, beyond: string, g: nat) {
    var t := SkipDash(text);
    |t| < g && (text == [] || |t| + |beyond| < g || AllHex((t + beyond)[..g]))
  }

  lemma GroupPanics(text: string, beyond: string, g: nat)
    requires g % 2 == 0 && g > 0
    ensures ReadGroup(text, beyond, g).outcome == Panic <==> RunsOut(text, beyond, g)
  {
    var t := SkipDash(text);
    if text != [] && |t| + |beyond| >= g {
      DecodesExactly((t + beyond)[..g]);
    }
  }

  /** The text starts, but for case, with the taken groups laid out, and runs out at the next one. */
  predicate Breaks(text: string, beyond: string, taken: seq<nat>, next: nat, dashes: seq<bool>, s: seq<Byte>)
    requires GroupsOk(taken)
  {
    && |dashes| == |taken| && 2 * |s| == Sum(taken)
    && var laid := Laid(taken, dashes, s);
       Starts(text, laid) && RunsOut(text[|laid|..], beyond, next)
  }

  /** The text breaks off after k whole groups. */
  predicate BreaksOff(text: string, beyond: string, gs: seq<nat>, k: nat, dashes: seq<bool>, s: seq<Byte>)
    requires GroupsOk(gs)
  {
    k < |gs| && Breaks(text, beyond, gs[..k], gs[k], dashes, s)
  }

  lemma FirstGroups(gs: seq<nat>, k: nat)
    requires 0 < k <= |gs|
    ensures gs[..k] != [] && gs[..k][0] == gs[0] && gs[..k][1..] == gs[1..][..k - 1]
  {
  }

  lemma BreaksLater(text: string, beyond: string, taken: seq<nat>, next: nat, dashes: seq<bool>, s: seq<Byte>)
    requires taken != [] && GroupsOk(taken)
    requires ReadGroup(text, beyond, taken[0]).outcome == Ok
    requires Breaks(ReadGroup(text, beyond, taken[0]).rest, beyond, taken[1..], next, dashes, s)
    ensures text != []
    ensures Breaks(text, beyond, taken, next, [text[0] == '-'] + dashes, ReadGroup(text, beyond, taken[0]).bytes + s)
  {
    var first := ReadGroup(text, beyond, taken[0]);
    ReadIsLaid(text, beyond, taken[0], Laid(taken[1..], dashes, s));
    LaidStep(taken, text[0] == '-', dashes, first.bytes, s);
  }

  lemma BreaksFirst(text: string, beyond: string, taken: seq<nat>, next: nat, dashes: seq<bool>, s: seq<Byte>)
    requires taken != [] && GroupsOk(taken) && Breaks(text, beyond, taken, next, dashes, s)
    ensures var first := ReadGroup(text, beyond, taken[0]);
            && first.outcome == Ok && taken[0] <= 2 * |s|
            && Breaks(first.rest, beyond, taken[1..], next, dashes[1..], s[taken[0] / 2..])
  {
    var h := taken[0] / 2;
    LaidUnfold(taken, dashes, s);
    LaidIsRead(text, beyond, dashes[0], s[..h], Laid(taken[1..], dashes[1..], s[h..]));
  }

  lemma BreaksAtOnce(text: string, beyond: string, gs: seq<nat>, dashes: seq<bool>, s: seq<Byte>)
    requires GroupsOk(gs) && gs != [] && dashes == [] && s == []
    ensures BreaksOff(text, beyond, gs, 0, dashes, s) <==> RunsOut(text, beyond, gs[0])
  {
    assert gs[..0] == [] && text[0..] == text;
  }

  lemma BreaksOffLater(text: string, beyond: string, gs: seq<nat>, k: nat, dashes: seq<bool>, s: seq<Byte>)
    requires GroupsOk(gs) && gs != [] && ReadGroup(text, beyond, gs[0]).outcome == Ok && GroupsOk(gs[1..])
    requires BreaksOff(ReadGroup(text, beyond, gs[0]).rest, beyond, gs[1..], k, dashes, s)
    ensures text != []
    ensures BreaksOff(text, beyond, gs, k + 1, [text[0] == '-'] + dashes, ReadGroup(text, beyond, gs[0]).bytes + s)
  {
    FirstGroups(gs, k + 1);
    BreaksLater(text, beyond, gs[..k + 1], gs[k + 1], dashes, s);
  }

  lemma {:induction false} PanicBreaksOff(text: string, beyond: string, gs: seq<nat>)
      returns (k: nat, dashes: seq<bool>, s: seq<Byte>)
    requires GroupsOk(gs) && ReadGroups(text, beyond, gs).outcome == Panic
    ensures BreaksOff(text, beyond, gs, k, dashes, s)
    decreases |gs|
  {
    var first := ReadGroup(text, beyond, gs[0]);
    if first.outcome == Panic {
      k, dashes, s := 0, [], [];
      GroupPanics(text, beyond, gs[0]);
      BreaksAtOnce(text, beyond, gs, dashes, s);
    } else {
      GroupsTail(gs);
      k, dashes, s := PanicBreaksOff(first.rest, beyond, gs[1..]);
      BreaksOffLater(text, beyond, gs, k, dashes, s);
      k, dashes, s := k + 1, [text[0] == '-'] + dashes, first.bytes + s;
    }
  }

  lemma BreaksOffFirst(text: string, beyond: string, gs: seq<nat>, k: nat, dashes: seq<bool>, s: seq<Byte>)
    requires GroupsOk(gs) && 0 < k && BreaksOff(text, beyond, gs, k, dashes, s)
    ensures var first := ReadGroup(text, beyond, gs[0]);
            && GroupsOk(gs[1..]) && first.outcome == Ok && gs[0] <= 2 * |s|
            && BreaksOff(first.rest, beyond, gs[1..], k - 1, dashes[1..], s[gs[0] / 2..])
  {
    GroupsTail(gs);
    FirstGroups(gs, k);
    BreaksFirst(text, beyond, gs[..k], gs[k], dashes, s);
  }

  lemma {:induction false} BrokenOffPanics(text: string, beyond: string, gs: seq<nat>, k: nat,
        dashes: seq<bool>, s: seq<Byte>)
    requires GroupsOk(gs) && BreaksOff(text, beyond, gs, k, dashes, s)
    ensures ReadGroups(text, beyond, gs).outcome == Panic
    decreases k
  {
    if k == 0 {
      BreaksAtOnce(text, beyond, gs, dashes, s);
      GroupPanics(text, beyond, gs[0]);
    } else {
      BreaksOffFirst(text, beyond, gs, k, dashes, s);
      var first := ReadGroup(text, beyond, gs[0]);
      BrokenOffPanics(first.rest, beyond, gs[1..], k - 1, dashes[1..], s[gs[0] / 2..]);
    }
  }

  /** UnmarshalText panics exactly on texts of at least 32 bytes that, after an optional "urn:uuid:" or
      brace, break off after some whole groups, for every capacity. */
  lemma PanicsExactly(text: string, beyond: string, gs: seq<nat>)
    requires GroupsOk(gs)
    ensures Unmarshal(text, beyond, gs).outcome == Panic <==>
      |text| >= 32 && exists k, dashes, s :: BreaksOff(Body(text), beyond, gs, k, dashes, s)
  {
    if Unmarshal(text, beyond, gs).outcome == Panic {
      var k, dashes, s := PanicBreaksOff(Body(text), beyond, gs);
    }
    if |text| >= 32 {
      if k, dashes, s :| BreaksOff(Body(text), beyond, gs, k, dashes, s) {
        BrokenOffPanics(Body(text), beyond, gs, k, dashes, s);
      }
    }
  }

  /** In particular when nothing but digits follows and they run out before the last group is full. */
  lemma {:induction false} TooShort(text: string, gs: seq<nat>)
    requires GroupsOk(gs) && AllHex(text) && |text| < Sum(gs)
    ensures ReadGroups(text, [], gs).outcome == Panic
  {
    if text != [] {
      HexValueDigit(text[0]);
      var g := gs[0];
      assert SkipDash(text) == text && text + [] == text;
      if |text| >= g {
        PairsAll(text[..g], g / 2);
        TooShort(text[g..], gs[1..]);
      }
    }
  }

  /** A text of 32 bytes that opens with a brace and holds 31 digits panics, although it passed the
      length test. */
  lemma BracePanics(gs: seq<nat>, digits: string)
    requires IsUuid(gs) && AllHex(digits) && |digits| == 31
    ensures GroupsOk(gs) && Unmarshal("{" + digits, [], gs).outcome == Panic
  {
    SumOfGroups(gs);
    var text := "{" + digits;
    NotUrn(text);
    assert text[1..] == digits;
    TooShort(digits, gs);
  }

  // ----- the methods, which write in place -----

  /** buf with t written over it from `at` on. */
  function Over<T>(buf: seq<T>, at: nat, t: seq<T>): (r: seq<T>)
    requires at + |t| <= |buf|
    ensures |r| == |buf|
  {
    buf[..at] + t + buf[at + |t|..]
  }

  lemma OverOne<T>(buf: seq<T>, at: nat, s: seq<T>, x: T)
    requires at + |s| < |buf|
    ensures Over(buf, at, s)[at + |s| := x] == Over(buf, at, s + [x])
  {
  }

  /** One element written behind those already written. */
  method WriteNext<T>(buf: array<T>, ghost before: seq<T>, at: nat, ghost s: seq<T>, i: nat, x: T)
    requires at + |s| < buf.Length == |before| && i == at + |s| && buf[..] == Over(before, at, s)
    modifies buf
    ensures buf[..] == Over(before, at, s + [x])
  {
    OverOne(before, at, s, x);
    buf[i] := x;
  }

  /** hex.Encode. */
  method Encode(buf: array<char>, at: nat, src: seq<Byte>)
    requires at + 2 * |src| <= buf.Length
    modifies buf
    ensures buf[..] == Over(old(buf[..]), at, Hex(src))
  {
    ghost var before, done: string := buf[..], [];
    for i := 0 to |src|
      invariant |done| == 2 * i && done == Hex(src[..i]) && buf[..] == Over(before, at, done)
    {
      var n := src[i];
      var x, y := HexDigit(n / 16), HexDigit(n % 16);
      WriteNext(buf, before, at, done, at + 2 * i, x);
      WriteNext(buf, before, at, done + [x], at + 2 * i + 1, y);
      HexMore(src, i);
      done := done + [x] + [y];
    }
    assert src[..|src|] == src;
  }

  lemma HexMore(src: seq<Byte>, i: nat)
    requires i < |src|
    ensures Hex(src[..i + 1]) == Hex(src[..i]) + [HexDigit(src[i] / 16)] + [HexDigit(src[i] % 16)]
  {
    assert src[..i + 1] == src[..i] + [src[i]];
    HexAppend(src[..i], [src[i]]);
    assert [src[i]][1..] == [];
  }

  /** One group behind the text written so far, and perhaps a dash behind it. */
  method AddGroup(buf: array<char>, ghost sofar: string, at: nat, src: seq<Byte>, dash: bool)
    requires at == |sofar| && at + 2 * |src| + |Dash(dash)| <= buf.Length && buf[..at] == sofar
    modifies buf
    ensures buf[..at + 2 * |src| + |Dash(dash)|] == sofar + Hex(src) + Dash(dash)
  {
    ghost var digits := Hex(src);
    Encode(buf, at, src);
    assert buf[..at + 2 * |src|] == sofar + digits;
    if dash {
      buf[at + 2 * |src|] := '-';
      assert buf[..at + 2 * |src|] == sofar + digits;
    }
  }

  method ToString(u: seq<Byte>) returns (t: string)
    requires |u| == 16
    ensures t == String(u)
  {
    var buf := new char[36];
    ghost var a, b, c, d, e := Hex(u[..4]), Hex(u[4..6]), Hex(u[6..8]), Hex(u[8..10]), Hex(u[10..]);
    AddGroup(buf, "", 0, u[..4], true);
    assert "" + a + "-" == a + "-";
    AddGroup(buf, a + "-", 9, u[4..6], true);
    AddGroup(buf, a + "-" + b + "-", 14, u[6..8], true);
    AddGroup(buf, a + "-" + b + "-" + c + "-", 19, u[8..10], true);
    AddGroup(buf, a + "-" + b + "-" + c + "-" + d + "-", 24, u[10..], false);
    t := buf[..];
    assert t == buf[..36];
  }

  /** hex.Decode: bytes up to the first bad digit are written. */
  method Decode(u: array<Byte>, at: nat, t: string) returns (ok: bool)
    requires |t| % 2 == 0 && at + |t| / 2 <= u.Length
    modifies u
    ensures ok == Unhex(t).ok && u[..] == Over(old(u[..]), at, Unhex(t).bytes)
  {
    ghost var before, done: seq<Byte> := u[..], [];
    for i := 0 to |t| / 2
      invariant Pairs(t, i) == Decoded(done, true) && |done| == i
      invariant u[..] == Over(before, at, done)
    {
      var b := PairValue(t[2 * i], t[2 * i + 1]);
      if b.None? {
        PairsStuck(t, i + 1, |t| / 2);
        return false;
      }
      WriteNext(u, before, at, done, at + i, b.value);
      done := done + [b.value];
    }
    ok := true;
  }

  lemma OverTwice<T>(buf: seq<T>, at: nat, s: seq<T>, t: seq<T>)
    requires at + |s| + |t| <= |buf|
    ensures Over(Over(buf, at, s), at + |s|, t) == Over(buf, at, s + t)
  {
  }

  lemma {:induction false} ReadFits(text: string, beyond: string, gs: seq<nat>)
    requires GroupsOk(gs)
    ensures 2 * |ReadGroups(text, beyond, gs).bytes| <= Sum(gs)
  {
    if gs != [] {
      ReadFits(ReadGroup(text, beyond, gs[0]).rest, beyond, gs[1..]);
    }
  }

  /** UnmarshalText, whose out-of-range slices end it with a panic. */
  method UnmarshalText(u: array<Byte>, text: string, beyond: string, byteGroups: seq<nat>) returns (outcome: Outcome)
    requires u.Length == 16 && IsUuid(byteGroups) && GroupsOk(byteGroups)
    modifies u
    ensures var p := Unmarshal(text, beyond, byteGroups);
            outcome == p.outcome && |p.bytes| <= 16 && u[..] == Over(old(u[..]), 0, p.bytes)
  {
    if |text| < 32 {
      return Malformed;
    }
    var t := text;
    if t[..9] == URN {
      t := t[9..];
    } else if t[0] == '{' {
      t := t[1..];
    }
    SumOfGroups(byteGroups);
    ReadFits(t, beyond, byteGroups);
    outcome := ReadAll(u, t, beyond, byteGroups);
  }

  method ReadOne(u: array<Byte>, at: nat, text: string, beyond: string, g: nat) returns (outcome: Outcome, rest: string)
    requires g % 2 == 0 && at + g / 2 <= u.Length
    modifies u
    ensures var r := ReadGroup(text, beyond, g);
            outcome == r.outcome && rest == r.rest && u[..] == Over(old(u[..]), at, r.bytes)
  {
    rest := text;
    if rest == [] {
      return Panic, rest;
    }
    if rest[0] == '-' {
      rest := rest[1..];
    }
    if |rest| + |beyond| < g {
      return Panic, rest;
    }
    var ok := Decode(u, at, (rest + beyond)[..g]);
    if !ok {
      return Malformed, rest;
    }
    if |rest| < g {
      return Panic, rest;
    }
    outcome, rest := Ok, rest[g..];
  }

  method ReadAll(u: array<Byte>, text: string, beyond: string, byteGroups: seq<nat>) returns (outcome: Outcome)
    requires GroupsOk(byteGroups) && 2 * u.Length == Sum(byteGroups)
    modifies u
    ensures var p := ReadGroups(text, beyond, byteGroups);
            outcome == p.outcome && |p.bytes| <= u.Length && u[..] == Over(old(u[..]), 0, p.bytes)
  {
    var t, at := text, 0;
    ghost var before, whole, done: seq<Byte> := u[..], ReadGroups(text, beyond, byteGroups), [];
    ghost var gs := byteGroups;
    for i := 0 to |byteGroups|
      invariant gs == byteGroups[i..] && GroupsOk(gs)
      invariant at == |done| && 2 * at + Sum(gs) == 2 * u.Length
      invariant u[..] == Over(before, 0, done)
      invariant Behind(whole, done, ReadGroups(t, beyond, gs))
    {
      ghost var first := ReadGroup(t, beyond, gs[0]);
      GroupsTail(gs);
      DropDrop(byteGroups, i, 1);
      BehindStep(whole, done, t, beyond, gs);
      outcome, t := ReadOne(u, at, t, beyond, byteGroups[i]);
      OverTwice(before, 0, done, first.bytes);
      if outcome != Ok {
        return;
      }
      at := at + byteGroups[i] / 2;
      done, gs := done + first.bytes, gs[1..];
    }
    outcome := Ok;
  }

  predicate Behind(whole: Parsed, done: seq<Byte>, p: Parsed) {
    whole == Parsed(p.outcome, done + p.bytes)
  }

  lemma BehindStep(whole: Parsed, done: seq<Byte>, t: string, beyond: string, gs: seq<nat>)
    requires gs != [] && GroupsOk(gs) && Behind(whole, done, ReadGroups(t, beyond, gs))
    ensures var first := ReadGroup(t, beyond, gs[0]);
            if first.outcome != Ok then whole == Parsed(first.outcome, done + first.bytes)
            else Behind(whole, done + first.bytes, ReadGroups(first.rest, beyond, gs[1..]))
  {
    var first := ReadGroup(t, beyond, gs[0]);
    Associative(done, first.bytes, ReadGroups(first.rest, beyond, gs[1..]).bytes);
  }
}
