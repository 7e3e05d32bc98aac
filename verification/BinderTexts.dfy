/** The texts and keys of controller/binder.go spelled out: which texts are false, what a number too wide for its
    kind becomes, what a key's brackets say, and the request its documentation shows. */
module BinderTexts {
  import opened Numbers
  import opened Bytes
  import opened Decimal
  import opened Binder
  import opened BinderLaws
  import opened BinderRoundTrip
  import Loops = BinderLoops

  // ----- booleans -----

  /** The characters unicode.IsSpace accepts. */
  const SPACES: string :=
    "\U{09}\U{0A}\U{0B}\U{0C}\U{0D}\U{20}\U{85}\U{A0}\U{1680}\U{2000}\U{2001}\U{2002}\U{2003}\U{2004}"
    + "\U{2005}\U{2006}\U{2007}\U{2008}\U{2009}\U{200A}\U{2028}\U{2029}\U{202F}\U{205F}\U{3000}"

  lemma SpacesAre(c: char)
    ensures IsSpace(c) <==> c in SPACES
    ensures IsSpace(Lower(c)) <==> IsSpace(c)
  {
  }

  predicate OnlySpaces(s: string) {
    forall i | 0 <= i < |s| :: s[i] in SPACES
  }

  /** The word, each letter in either case. */
  predicate InEitherCase(t: string, word: string) {
    && |t| == |word|
    && forall i | 0 <= i < |t| :: t[i] == word[i] || ('a' <= word[i] <= 'z' && t[i] == word[i] - 'a' + 'A')
  }

  predicate IsFalseWord(t: string) {
    || t == "" || InEitherCase(t, "false") || InEitherCase(t, "off") || InEitherCase(t, "f")
    || t == "0" || t == "0.0"
  }

  /** Where the text without the spaces around it begins and ends. */
  ghost predicate Trims(s: string, a: nat, b: nat) {
    && a <= b <= |s|
    && (forall i | 0 <= i < a :: IsSpace(s[i])) && (forall i | b <= i < |s| :: IsSpace(s[i]))
    && (a < b ==> !IsSpace(s[a]) && !IsSpace(s[b - 1]))
  }

  lemma {:induction false} TrimsLeft(s: string) returns (a: nat)
    ensures a <= |s| && TrimLeft(s) == s[a..] && forall i | 0 <= i < a :: IsSpace(s[i])
    ensures a < |s| ==> !IsSpace(s[a])
  {
    a := 0;
    if s != [] && IsSpace(s[0]) {
      var rest := TrimsLeft(s[1..]);
      a := rest + 1;
      assert s[1..][rest..] == s[a..];
      forall i | 0 <= i < a
        ensures IsSpace(s[i])
      {
        assert i > 0 ==> s[i] == s[1..][i - 1];
      }
    }
  }

  lemma {:induction false} TrimsRight(s: string) returns (b: nat)
    ensures b <= |s| && TrimRight(s) == s[..b] && forall i | b <= i < |s| :: IsSpace(s[i])
    ensures b > 0 ==> !IsSpace(s[b - 1])
  {
    b := |s|;
    if s != [] && IsSpace(s[|s| - 1]) {
      b := TrimsRight(s[..|s| - 1]);
      assert s[..|s| - 1][..b] == s[..b];
    } else {
      assert s[..b] == s;
    }
  }

  lemma TrimsBoth(s: string) returns (a: nat, b: nat)
    ensures Trims(s, a, b) && TrimRight(TrimLeft(s)) == s[a..b]
  {
    a := TrimsLeft(s);
    var n := TrimsRight(s[a..]);
    b := a + n;
    assert s[a..][..n] == s[a..b];
    forall i | b <= i < |s|
      ensures IsSpace(s[i])
    {
      assert s[i] == s[a..][i - a];
    }
    assert a < b ==> s[b - 1] == s[a..][n - 1];
  }

  /** There is one way to trim. */
  lemma TrimsOnce(s: string, a: nat, b: nat, c: nat, d: nat)
    requires Trims(s, a, b) && Trims(s, c, d)
    ensures s[a..b] == s[c..d]
  {
  }

  function Lowered(v: string): (s: string)
    ensures |s| == |v| && forall i | 0 <= i < |v| :: s[i] == Lower(v[i])
  {
    seq(|v|, i requires 0 <= i < |v| => Lower(v[i]))
  }

  lemma LoweredWord(t: string, word: string)
    requires forall i | 0 <= i < |word| :: 'a' <= word[i] <= 'z'
    ensures Lowered(t) == word <==> InEitherCase(t, word)
  {
  }

  lemma LoweredSign(t: string, word: string)
    requires forall i | 0 <= i < |word| :: !('A' <= word[i] <= 'Z' || 'a' <= word[i] <= 'z')
    ensures Lowered(t) == word <==> t == word
  {
    if Lowered(t) == word {
      assert forall i | 0 <= i < |t| :: word[i] == Lower(t[i]);
    }
  }

  lemma FalseWords(t: string)
    ensures var l := Lowered(t);
            l == "" || l == "false" || l == "off" || l == "f" || l == "0" || l == "0.0" <==> IsFalseWord(t)
  {
    LoweredWord(t, "false");
    LoweredWord(t, "off");
    LoweredWord(t, "f");
    LoweredSign(t, "0");
    LoweredSign(t, "0.0");
  }

  /** Spaces around a text are those around its lower-case form. */
  lemma SpacesAround(v: string, a: nat, b: nat)
    requires a <= b <= |v|
    ensures var low := Lowered(v);
            && (OnlySpaces(v[..a]) <==> forall i | 0 <= i < a :: IsSpace(low[i]))
            && (OnlySpaces(v[b..]) <==> forall i | b <= i < |v| :: IsSpace(low[i]))
            && low[a..b] == Lowered(v[a..b])
  {
    forall i | 0 <= i < |v|
      ensures IsSpace(Lowered(v)[i]) <==> v[i] in SPACES
    {
      SpacesAre(v[i]);
    }
    assert OnlySpaces(v[..a]) ==> forall i | 0 <= i < a :: v[i] == v[..a][i] && v[i] in SPACES;
    assert OnlySpaces(v[b..]) ==> forall i | b <= i < |v| :: v[i] == v[b..][i - b] && v[i] in SPACES;
  }

  lemma NoSpaceAtTheEnds(t: string)
    requires t in ["false", "off", "f", "0", "0.0"]
    ensures !IsSpace(t[0]) && !IsSpace(t[|t| - 1])
  {
  }

  predicate Framed(v: string, a: nat, b: nat) {
    a <= b <= |v| && OnlySpaces(v[..a]) && IsFalseWord(v[a..b]) && OnlySpaces(v[b..])
  }

  lemma FramedIsFalse(v: string, a: nat, b: nat)
    requires Framed(v, a, b)
    ensures !Atob(v)
  {
    var low := Lowered(v);
    SpacesAround(v, a, b);
    FalseWords(v[a..b]);
    if a < b {
      NoSpaceAtTheEnds(low[a..b]);
      assert low[a] == low[a..b][0] && low[b - 1] == low[a..b][b - a - 1];
    }
    var c, d := TrimsBoth(low);
    TrimsOnce(low, a, b, c, d);
  }

  lemma FalseIsFramed(v: string) returns (a: nat, b: nat)
    requires !Atob(v)
    ensures Framed(v, a, b)
  {
    var low := Lowered(v);
    a, b := TrimsBoth(low);
    SpacesAround(v, a, b);
    FalseWords(v[a..b]);
  }

  /** A text is false exactly when it is one of six words, in letters of either case, between spaces; true otherwise. */
  lemma FalseTexts(v: string)
    ensures FromText(v, BoolKind) == BoolVal(false) <==>
              exists a, b | 0 <= a <= b <= |v| :: OnlySpaces(v[..a]) && IsFalseWord(v[a..b]) && OnlySpaces(v[b..])
  {
    if !Atob(v) {
      var a, b := FalseIsFramed(v);
      assert OnlySpaces(v[..a]) && IsFalseWord(v[a..b]) && OnlySpaces(v[b..]);
    }
    forall a, b | 0 <= a <= b <= |v| && OnlySpaces(v[..a]) && IsFalseWord(v[a..b]) && OnlySpaces(v[b..])
      ensures !Atob(v)
    {
      FramedIsFalse(v, a, b);
    }
  }

  // ----- numbers -----

  /** An int is the number in the text cut to the bits of its kind, the one in range that differs by a multiple of
      m = 2^bits (64 bits for int and uint), and 0 for a text ParseInt refuses; the same for a uint. */
  lemma NumberFromText(t: string, bits: nat, m: int)
    requires m == if bits == 8 then 256 else if bits == 16 then 65536 else if bits == 32 then 0x1_0000_0000
                  else 0x1_0000_0000_0000_0000
    ensures var i := FromText(t, IntKind(bits)).i;
            && -m <= 2 * i < m
            && match ParseInt(t) case None => i == 0 case Some(v) => exists q: int :: v == q * m + i
    ensures var u := FromText(t, UintKind(bits)).u;
            && 0 <= u < m
            && match ParseUint(t) case None => u == 0 case Some(v) => exists q: int :: v == q * m + u
  {
    if ParseInt(t).Some? {
      var v := ParseInt(t).value;
      Wrapped(v, m);
      assert v == ((v + m / 2) / m) * m + FromText(t, IntKind(bits)).i;
    }
    if ParseUint(t).Some? {
      var v := ParseUint(t).value;
      assert v == (v / m) * m + v % m;
    }
  }

  lemma Wrapped(v: int, m: int)
    requires m > 0
    ensures v == ((v + m / 2) / m) * m + ((v + m / 2) % m - m / 2)
  {
  }

  /** A scalar is bound to the first value under its own name, and to what an empty text stands for without one. */
  lemma FirstValue(p: Params, name: string, k: Kind)
    ensures Bind(p, name, ScalarTy(k)) == Plain(FromText(if name in p && p[name] != [] then p[name][0] else "", k))
  {
    FalseTexts("");
    assert OnlySpaces(""[..0]) && IsFalseWord(""[0..0]) && OnlySpaces(""[0..]);
  }

  /** A value given without an index is bound by itself: to what its text stands for if the elements are scalars, to
      zero if they are not. */
  lemma LooseValue(texts: seq<string>, elem: Ty, i: nat)
    requires i < |texts|
    ensures LooseValues(texts, elem)[i] == if elem.ScalarTy? then Plain(FromText(texts[i], elem.kind)) else Zero(elem)
  {
    var p := Single(texts[i]);
    match elem
    case ScalarTy(_) =>
    case SliceTy(inner) =>
      NoItems(p, "");
      if !IsBytes(elem) {
        NoIndex(p, "", inner);
      }
    case MapTy(key, _) =>
      NoItems(p, "");
      assert BoundKeys(p, "", key) == {};
    case StructTy(fs) =>
      forall j | 0 <= j < |fs|
        ensures Bind(p, Member("", fs[j].name), fs[j].ty) == Zero(fs[j].ty)
      {
        NoMembers(p, "", fs[j].name);
        BindNothing(p, Member("", fs[j].name), fs[j].ty);
      }
  }

  // ----- keys -----

  /** What the brackets behind a slice's name say: with no closing bracket, or with nothing before it, there is no
      index; a number gives the nearest index, and anything else index 0. The element's name ends at the bracket. */
  lemma IndexExactly(name: string, key: string, b: nat)
    requires name + "[" <= key && |name| < b <= |key|
    requires forall j | |name| <= j < b :: key[j] != ']'
    requires b < |key| ==> key[b] == ']'
    ensures b == |key| || b == |name| + 1 ==> IndexOf(name, key) == -1
    ensures |name| + 1 < b < |key| ==> IndexOf(name, key) == Atoi(key[|name| + 1..b])
    ensures b < |key| ==> ItemName(name, key) == key[..b + 1]
  {
    var tail := key[|name|..];
    if b < |key| {
      FindFirst(tail, ']', b - |name|);
    }
  }

  // ----- printing -----

  ghost predicate PrintedAs(name: string, v: Val, ty: Ty, k: string, t: string)
    requires HasType(v, ty)
  {
    k in Flat(name, v, ty) && Flat(name, v, ty)[k] == t
  }

  /** Which keys a value is printed under, and with which texts: a scalar under its name; element i of a slice under
      name[i], unless it is a byte slice, which prints nothing; a field under name.field; a map's entries under
      name[key]. */
  lemma PrintedExactly(name: string, v: Val, ty: Ty, k: string, t: string)
    requires HasType(v, ty) && TyOk(ty)
    ensures PrintedAs(name, v, ty, k, t) <==>
              match ty
              case ScalarTy(_) =>
                && k == name
                && t == (match v.scalar
                         case IntVal(i) => FormatInt(i)
                         case UintVal(u) => FormatInt(u)
                         case BoolVal(b) => if b then "true" else "false"
                         case StringVal(s) => s)
              case SliceTy(elem) =>
                && elem != ScalarTy(UintKind(8))
                && exists i | 0 <= i < |v.elems| :: PrintedAs(name + "[" + FormatInt(i) + "]", v.elems[i], elem, k, t)
              case StructTy(fs) =>
                exists i | 0 <= i < |fs| :: PrintedAs(name + "." + fs[i].name, v.vals[i], fs[i].ty, k, t)
              case MapTy(_, _) =>
                exists s | s in v.entries :: k == name + "[" + Text(s) + "]" && t == Text(v.entries[s])
  {
    match ty
    case ScalarTy(_) =>
    case SliceTy(elem) =>
      if !IsBytes(ty) {
        PrintedElements(name, v, elem, k, t);
      }
    case StructTy(fs) =>
      PrintedFields(name, v, fs, k, t);
    case MapTy(key, val) =>
      PrintedEntries(name, v, key, val, k, t);
  }

  lemma PrintedElements(name: string, v: Val, elem: Ty, k: string, t: string)
    requires HasType(v, SliceTy(elem)) && TyOk(elem) && !IsBytes(SliceTy(elem))
    ensures PrintedAs(name, v, SliceTy(elem), k, t) <==>
              exists i | 0 <= i < |v.elems| :: PrintedAs(name + "[" + FormatInt(i) + "]", v.elems[i], elem, k, t)
  {
    var parts := ElemParts(name, v.elems, elem);
    forall i | 0 <= i < |v.elems|
      ensures name + "[" + FormatInt(i) + "]" == Item(name, i)
      ensures k in parts[i] ==> k in Union(parts) && Union(parts)[k] == parts[i][k]
    {
      if k in parts[i] {
        FlatKeys(Item(name, i), v.elems[i], elem, k);
        ElemPart(name, v, elem, i, k);
      }
    }
    if k in Union(parts) {
      var i := PartOf(parts, k);
      assert PrintedAs(name + "[" + FormatInt(i) + "]", v.elems[i], elem, k, Union(parts)[k]);
    }
  }

  lemma PrintedFields(name: string, v: Val, fs: seq<Field>, k: string, t: string)
    requires HasType(v, StructTy(fs)) && TyOk(StructTy(fs))
    ensures PrintedAs(name, v, StructTy(fs), k, t) <==>
              exists i | 0 <= i < |fs| :: PrintedAs(name + "." + fs[i].name, v.vals[i], fs[i].ty, k, t)
  {
    var parts := FieldParts(name, v.vals, fs);
    forall i | 0 <= i < |fs|
      ensures name + "." + fs[i].name == Member(name, fs[i].name)
      ensures k in parts[i] ==> k in Union(parts) && Union(parts)[k] == parts[i][k]
    {
      if k in parts[i] {
        FlatKeys(Member(name, fs[i].name), v.vals[i], fs[i].ty, k);
        FieldPart(name, v, fs, i, k);
      }
    }
    if k in Union(parts) {
      var i := PartOf(parts, k);
      assert PrintedAs(name + "." + fs[i].name, v.vals[i], fs[i].ty, k, Union(parts)[k]);
    }
  }

  lemma PrintedEntries(name: string, v: Val, key: Kind, val: Kind, k: string, t: string)
    requires HasType(v, MapTy(key, val))
    ensures PrintedAs(name, v, MapTy(key, val), k, t) <==>
              exists s | s in v.entries :: k == name + "[" + Text(s) + "]" && t == Text(v.entries[s])
  {
    forall s | s in v.entries
      ensures name + "[" + Text(s) + "]" in EntryNames(name, v.entries)
      ensures EntryOf(name, v.entries, name + "[" + Text(s) + "]") == s
    {
      Loops.EntryIsOne(name, v.entries, key, s);
    }
  }

  // ----- reading -----

  /** The parameter begins with the name and an opening bracket and ends in a closing one, and the text between
      stands for the map key s. */
  predicate Spells(name: string, k: string, key: Kind, s: Scalar) {
    name + "[" <= k && k[|k| - 1] == ']' && FromText(k[|name| + 1..|k| - 1], key) == s
  }

  lemma SpellingsAre(p: Params, name: string, key: Kind, s: Scalar)
    ensures forall k :: k in Spellings(p, name, key, s) <==> k in p && Spells(name, k, key, s)
    ensures s in BoundKeys(p, name, key) <==> Spellings(p, name, key, s) != {}
  {
    if k :| k in Spellings(p, name, key, s) {
      assert k in EntriesOf(p, name);
    }
    if s in BoundKeys(p, name, key) {
      var k :| k in EntriesOf(p, name) && FromText(EntryKey(name, k), key) == s;
      assert k in Spellings(p, name, key, s);
    }
  }

  /** A map's entries: one for every key that a parameter spells, with the first text of such a parameter. */
  lemma EntriesExactly(p: Params, name: string, key: Kind, val: Kind, s: Scalar)
    ensures var entries := Bind(p, name, MapTy(key, val)).entries;
            && (s in entries <==> exists k | k in p :: Spells(name, k, key, s))
            && (s in entries ==>
                  exists k | k in p && Spells(name, k, key, s) ::
                    entries[s] == if p[k] == [] then ZeroScalar(val) else FromText(p[k][0], val))
  {
    SpellingsAre(p, name, key, s);
    var names := Spellings(p, name, key, s);
    if names != {} {
      var k := Pick(names);
      assert k in p && Spells(name, k, key, s);
    }
  }

  /** id=123&ol[0]=1&ol[1]=2&ul[]=str&ul[]=array&user.Name=rob */
  const REQUEST: Params :=
    map["id" := ["123"], "ol[0]" := ["1"], "ol[1]" := ["2"], "ul[]" := ["str", "array"], "user.Name" := ["rob"]]

  /** The request in Binder's documentation binds to what is said there. */
  lemma DocumentedRequest()
    ensures Bind(REQUEST, "id", ScalarTy(IntKind(64))) == Plain(IntVal(123))
    ensures Bind(REQUEST, "ol", SliceTy(ScalarTy(IntKind(64)))) == Slice([Plain(IntVal(1)), Plain(IntVal(2))])
    ensures Bind(REQUEST, "ul", SliceTy(ScalarTy(StringKind)))
            == Slice([Plain(StringVal("str")), Plain(StringVal("array"))])
    ensures Bind(REQUEST, "user", StructTy([Field("Name", ScalarTy(StringKind))])) == Struct([Plain(StringVal("rob"))])
  {
    IdOfRequest();
    OrderedOfRequest();
    UnorderedOfRequest();
    UserOfRequest();
  }

  lemma IdOfRequest()
    ensures Bind(REQUEST, "id", ScalarTy(IntKind(64))) == Plain(IntVal(123))
  {
    OneTwoThree();
    assert "id" in REQUEST && REQUEST["id"] == ["123"];
  }

  lemma OneTwoThree()
    ensures FromText("123", IntKind(64)) == IntVal(123)
  {
    IntTextRoundTrip(123, 64);
    assert FormatInt(123) == "123" by {
      assert Digits(12) == "12";
      assert Digits(123) == Digits(12) + "3";
    }
  }

  lemma TwoNumbers() returns (v: Val)
    ensures v == Slice([Plain(IntVal(1)), Plain(IntVal(2))]) && HasType(v, SliceTy(ScalarTy(IntKind(64))))
    ensures Flat("ol", v, SliceTy(ScalarTy(IntKind(64)))) == map["ol[0]" := "1", "ol[1]" := "2"]
  {
    var elem := ScalarTy(IntKind(64));
    v := Slice([Plain(IntVal(1)), Plain(IntVal(2))]);
    var parts := ElemParts("ol", v.elems, elem);
    assert Item("ol", 0) == "ol[0]" && Item("ol", 1) == "ol[1]";
    assert Digits(1) == "1" && Digits(2) == "2";
    assert parts[0] == map["ol[0]" := "1"] && parts[1] == map["ol[1]" := "2"];
    assert parts[..1][..0] == [] && Union(parts[..1]) == parts[0];
  }

  lemma OrderedPart()
    ensures Part(REQUEST, "ol") == map["ol[0]" := ["1"], "ol[1]" := ["2"]]
  {
    assert "ol[0]"[..2] == "ol" && "ol[1]"[..2] == "ol";
    assert "id"[0] == 'i' && "ul[]"[0] == 'u' && "user.Name"[0] == 'u' && "ol"[0] == 'o';
  }

  lemma OrderedOfRequest()
    ensures Bind(REQUEST, "ol", SliceTy(ScalarTy(IntKind(64)))) == Slice([Plain(IntVal(1)), Plain(IntVal(2))])
  {
    var ty := SliceTy(ScalarTy(IntKind(64)));
    var v := TwoNumbers();
    OrderedPart();
    assert Part(REQUEST, "ol") == Lift(Flat("ol", v, ty));
    RoundTrip(REQUEST, "ol", v, ty);
    NormalIsSame(v, ty);
  }

  lemma UnorderedKeys()
    ensures forall key | key in REQUEST :: IsItem("ul", key) <==> key == "ul[]"
    ensures IndexOf("ul", "ul[]") == -1
  {
    assert "ul" + "[" == "ul[";
    assert "ul[]"[..3] == "ul[" && "id"[0] == 'i' && "ol[0]"[0] == 'o' && "ol[1]"[0] == 'o' && "user.Name"[1] == 's';
    IndexExactly("ul", "ul[]", 3);
  }

  lemma UnorderedOfRequest()
    ensures Bind(REQUEST, "ul", SliceTy(ScalarTy(StringKind)))
            == Slice([Plain(StringVal("str")), Plain(StringVal("array"))])
  {
    var elem := ScalarTy(StringKind);
    UnorderedKeys();
    assert Indexed(REQUEST, "ul") == {};
    assert Loose(REQUEST, "ul") == {"ul[]"};
    NoIndex(REQUEST, "ul", elem);
    TwoStrings("str", "array");
    assert LooseTexts(REQUEST, "ul") == ["str", "array"];
  }

  lemma NoIndex(p: Params, name: string, elem: Ty)
    requires Indexed(p, name) == {} && !IsBytes(SliceTy(elem))
    ensures Bind(p, name, SliceTy(elem)) == Slice(LooseValues(LooseTexts(p, name), elem))
  {
    assert Length(p, name) == 0;
    assert BindElems(p, name, elem) == LooseValues(LooseTexts(p, name), elem);
  }

  lemma TwoStrings(s: string, t: string)
    ensures LooseValues([s, t], ScalarTy(StringKind)) == [Plain(StringVal(s)), Plain(StringVal(t))]
  {
  }

  lemma UserOfRequest()
    ensures Bind(REQUEST, "user", StructTy([Field("Name", ScalarTy(StringKind))])) == Struct([Plain(StringVal("rob"))])
  {
    var f := Field("Name", ScalarTy(StringKind));
    assert Member("user", f.name) == "user.Name";
    assert Bind(REQUEST, "user.Name", f.ty) == Plain(StringVal("rob"));
    var vals := Bind(REQUEST, "user", StructTy([f])).vals;
    assert |vals| == 1 && vals[0] == Plain(StringVal("rob"));
  }
}
