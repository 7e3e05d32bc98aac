/** Decimal text as strconv and fmt write and read it. */
module Decimal {
  import opened Bytes
  import opened Numbers

  const TWO_63: int := 0x8000_0000_0000_0000

  function Digit(d: nat): char
    requires d < 10
  {
    '0' + d as char
  }

  predicate IsDigit(c: char) {
    '0' <= c <= '9'
  }

  function DigitValue(c: char): (d: nat)
    requires IsDigit(c)
    ensures d < 10
  {
    (c - '0') as nat
  }

  function Digits(n: nat): (s: string)
    ensures s != []
  {
    if n < 10 then [Digit(n)] else Digits(n / 10) + [Digit(n % 10)]
  }

  predicate AllDigits(s: string) {
    forall i | 0 <= i < |s| :: IsDigit(s[i])
  }

  function Value(s: string): nat
    requires AllDigits(s)
  {
    if s == [] then 0 else Value(s[..|s| - 1]) * 10 + DigitValue(s[|s| - 1])
  }

  lemma {:induction false} DigitsRoundTrip(n: nat)
    ensures AllDigits(Digits(n)) && Value(Digits(n)) == n
  {
    if n < 10 {
      assert Digits(n)[..0] == [];
    } else {
      DigitsRoundTrip(n / 10);
      assert Digits(n)[..|Digits(n)| - 1] == Digits(n / 10);
    }
  }

  /** fmt's %d. */
  function FormatInt(i: int): (s: string)
    ensures s != []
  {
    if i < 0 then "-" + Digits(-i) else Digits(i)
  }

  /** A sign, or none, and at least one digit: the numbers strconv accepts in base ten. */
  function Signed(s: string): Option<int> {
    if s == [] then None else
    var body := if s[0] == '-' || s[0] == '+' then s[1..] else s;
    if body == [] || !AllDigits(body) then None
    else Some(if s[0] == '-' then -(Value(body) as int) else Value(body))
  }

  /** strconv.ParseInt(s, 10, 64), None for its errors. */
  function ParseInt(s: string): Option<int> {
    match Signed(s)
    case None => None
    case Some(v) => if -TWO_63 <= v < TWO_63 then Some(v) else None
  }

  /** strconv.ParseUint(s, 10, 64), None for its errors. */
  function ParseUint(s: string): Option<int> {
    if s == [] || !AllDigits(s) || Value(s) >= TWO_64 then None else Some(Value(s))
  }

  /** strconv.Atoi with its error dropped: 0 for what is no number, the nearest int for one out of range. */
  function Atoi(s: string): int {
    match Signed(s)
    case None => 0
    case Some(v) => if v < -TWO_63 then -TWO_63 else if v >= TWO_63 then TWO_63 - 1 else v
  }

  lemma IntRoundTrip(i: int)
    ensures -TWO_63 <= i < TWO_63 ==> ParseInt(FormatInt(i)) == Some(i)
    ensures 0 <= i < TWO_64 ==> ParseUint(FormatInt(i)) == Some(i)
    ensures 0 <= i < TWO_63 ==> Atoi(FormatInt(i)) == i
  {
    var n := if i < 0 then -i else i;
    DigitsRoundTrip(n);
    var s := Digits(n);
    assert IsDigit(s[0]);
    if i < 0 {
      assert FormatInt(i)[1..] == s;
    }
  }

  // ----- the texts themselves -----

  function Pow10(k: nat): (p: nat)
    ensures p > 0
  {
    if k == 0 then 1 else 10 * Pow10(k - 1)
  }

  /** The number that digits stand for by their places, the first counting most. */
  function PlaceValue(s: string): nat
    requires AllDigits(s)
  {
    if s == [] then 0 else
    var digit, weight := s[0] as int - 48, Pow10(|s| - 1);
    MulMonotone(0, digit, weight);
    digit * weight + PlaceValue(s[1..])
  }

  lemma ShiftPlace(d: int, k: nat)
    requires k > 0
    ensures d * Pow10(k) == 10 * (d * Pow10(k - 1))
  {
  }

  lemma {:induction false} PlaceValueMore(s: string, c: char)
    requires AllDigits(s) && IsDigit(c)
    ensures PlaceValue(s + [c]) == 10 * PlaceValue(s) + (c as int - 48)
  {
    var t := s + [c];
    if s == [] {
      assert t[1..] == [] && Pow10(0) == 1;
    } else {
      assert t[1..] == s[1..] + [c];
      PlaceValueMore(s[1..], c);
      ShiftPlace(s[0] as int - 48, |s|);
    }
  }

  lemma {:induction false} ValueIsPlaceValue(s: string)
    requires AllDigits(s)
    ensures Value(s) == PlaceValue(s)
  {
    if s != [] {
      var front, c := s[..|s| - 1], s[|s| - 1];
      ValueIsPlaceValue(front);
      PlaceValueMore(front, c);
      FrontAndLast(s);
    }
  }

  lemma {:induction false} NoLeadingZero(n: nat)
    ensures n > 0 ==> Digits(n)[0] != '0'
    ensures |Digits(n)| > 1 ==> n > 0
  {
    if n >= 10 {
      NoLeadingZero(n / 10);
    }
  }

  /** What %d prints: digits that stand for the number, the first not a zero unless it is the only one, behind a minus
      sign when the number is negative. */
  lemma PrintedNumber(i: int)
    ensures var s := FormatInt(i);
            var body := if i < 0 then s[1..] else s;
            && (i < 0 ==> s[0] == '-') && body != "" && AllDigits(body)
            && PlaceValue(body) == (if i < 0 then -i else i)
            && (|body| > 1 ==> body[0] != '0')
  {
    var n := if i < 0 then -i else i;
    DigitsRoundTrip(n);
    ValueIsPlaceValue(Digits(n));
    NoLeadingZero(n);
    if i < 0 {
      assert FormatInt(i)[1..] == Digits(n);
    }
  }

  /** Printing the number that digits stand for gives the digits back exactly when they have no needless zero. */
  lemma {:induction false} CanonicalExactly(s: string)
    requires AllDigits(s) && s != []
    ensures Digits(PlaceValue(s)) == s <==> |s| == 1 || s[0] != '0'
  {
    var front, c := s[..|s| - 1], s[|s| - 1];
    ValueIsPlaceValue(s);
    NoLeadingZero(Value(s));
    if |s| == 1 {
      assert Value(front) == 0;
    } else if s[0] != '0' {
      CanonicalExactly(front);
      ValueIsPlaceValue(front);
      Positive(front);
      FrontAndLast(s);
    }
  }

  lemma Positive(s: string)
    requires AllDigits(s) && s != [] && s[0] != '0'
    ensures PlaceValue(s) > 0
  {
    MulMonotone(1, s[0] as int - 48, Pow10(|s| - 1));
  }

  /** Which texts strconv takes for numbers, and which numbers. */
  lemma NumberTexts(t: string)
    ensures var sign := t != "" && (t[0] == '-' || t[0] == '+');
            var body := if sign then t[1..] else t;
            if body == "" || exists i | 0 <= i < |body| :: body[i] < '0' || body[i] > '9' then
              ParseInt(t) == None && ParseUint(t) == None && Atoi(t) == 0
            else
              var v: int := if t[0] == '-' then -(PlaceValue(body) as int) else PlaceValue(body);
              && ParseInt(t) == (if -0x8000_0000_0000_0000 <= v <= 0x7fff_ffff_ffff_ffff then Some(v) else None)
              && ParseUint(t) == (if !sign && v <= 0xffff_ffff_ffff_ffff then Some(v) else None)
              && Atoi(t) == (if v < -0x8000_0000_0000_0000 then -0x8000_0000_0000_0000
                             else if v > 0x7fff_ffff_ffff_ffff then 0x7fff_ffff_ffff_ffff else v)
  {
    var sign := t != "" && (t[0] == '-' || t[0] == '+');
    var body := if sign then t[1..] else t;
    if body != "" && AllDigits(body) {
      ValueIsPlaceValue(body);
    }
  }
}
