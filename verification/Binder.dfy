/** controller/binder.go as functions: the types that can be bound, the flat keys a value is printed
    under, and the value a set of parameters stands for. The loops of the source are in BinderLoops. */
module Binder {
  import opened Bytes
  import opened Decimal
  import opened Numbers

  /** The scalar kinds; the sizes are in bits. */
  datatype Kind = IntKind(bits: nat) | UintKind(bits: nat) | BoolKind | StringKind

  datatype Field = Field(name: string, ty: Ty)

  datatype Ty = ScalarTy(kind: Kind) | SliceTy(elem: Ty) | StructTy(fields: seq<Field>) | MapTy(key: Kind, val: Kind)

  datatype Scalar = IntVal(i: int) | UintVal(u: int) | BoolVal(b: bool) | StringVal(s: string)

  /** Values; a nil slice or map is an empty one. */
  datatype Val =
    | Plain(scalar: Scalar)
    | Slice(elems: seq<Val>)
    | Struct(vals: seq<Val>)
    | Map(entries: map<Scalar, Scalar>)

  type Params = map<string, seq<string>>

  function Modulus(bits: nat): (m: int)
    ensures 0 < m <= TWO_64 && m % 2 == 0
  {
    if bits == 8 then 0x100 else if bits == 16 then TWO_16 else if bits == 32 then TWO_32 else TWO_64
  }

  predicate HasKind(s: Scalar, k: Kind) {
    match k
    case IntKind(bits) => s.IntVal? && -Modulus(bits) <= 2 * s.i < Modulus(bits)
    case UintKind(bits) => s.UintVal? && 0 <= s.u < Modulus(bits)
    case BoolKind => s.BoolVal?
    case StringKind => s.StringVal?
  }

  predicate HasType(v: Val, ty: Ty)
    decreases ty
  {
    match ty
    case ScalarTy(k) => v.Plain? && HasKind(v.scalar, k)
    case SliceTy(elem) => v.Slice? && |v.elems| < TWO_63 && forall i | 0 <= i < |v.elems| :: HasType(v.elems[i], elem)
    case StructTy(fs) => v.Struct? && |v.vals| == |fs| && forall i | 0 <= i < |fs| :: HasType(v.vals[i], fs[i].ty)
    case MapTy(key, val) => v.Map? && forall k | k in v.entries :: HasKind(k, key) && HasKind(v.entries[k], val)
  }

  /** Field names are Go identifiers: distinct in their struct, with neither a dot nor a bracket. */
  predicate TyOk(ty: Ty) {
    match ty
    case ScalarTy(_) => true
    case MapTy(_, _) => true
    case SliceTy(elem) => TyOk(elem)
    case StructTy(fs) =>
      && (forall i | 0 <= i < |fs| :: NameOk(fs[i].name) && TyOk(fs[i].ty))
      && (forall i, j | 0 <= i < j < |fs| :: fs[i].name != fs[j].name)
  }

  predicate NameOk(name: string) {
    forall i | 0 <= i < |name| :: name[i] != '.' && name[i] != '['
  }

  function ZeroScalar(k: Kind): Scalar {
    match k
    case IntKind(_) => IntVal(0)
    case UintKind(_) => UintVal(0)
    case BoolKind => BoolVal(false)
    case StringKind => StringVal("")
  }

  /** reflect.Zero. */
  function Zero(ty: Ty): Val {
    match ty
    case ScalarTy(k) => Plain(ZeroScalar(k))
    case SliceTy(_) => Slice([])
    case StructTy(fs) => Struct(seq(|fs|, i requires 0 <= i < |fs| => Zero(fs[i].ty)))
    case MapTy(_, _) => Map(map[])
  }

  /** The type []byte has a binder of its own, which reads an uploaded file and prints nothing. */
  predicate IsBytes(ty: Ty) {
    ty == SliceTy(ScalarTy(UintKind(8)))
  }

  // ----- scalars as text -----

  function Lower(c: char): char {
    if 'A' <= c <= 'Z' then c - 'A' + 'a' else c
  }

  predicate IsSpace(c: char) {
    var n := c as int;
    9 <= n <= 13 || n == 32 || n == 0x85 || n == 0xA0 || n == 0x1680 || 0x2000 <= n <= 0x200a
    || n == 0x2028 || n == 0x2029 || n == 0x202f || n == 0x205f || n == 0x3000
  }

  function TrimLeft(s: string): string {
    if s != [] && IsSpace(s[0]) then TrimLeft(s[1..]) else s
  }

  function TrimRight(s: string): string {
    if s != [] && IsSpace(s[|s| - 1]) then TrimRight(s[..|s| - 1]) else s
  }

  /** Atob: a few spellings are false, everything else is true. Case folding beyond ASCII cannot
      produce any of those spellings. */
  function Atob(v: string): bool {
    var t := TrimRight(TrimLeft(seq(|v|, i requires 0 <= i < |v| => Lower(v[i]))));
    !(t == "" || t == "false" || t == "off" || t == "f" || t == "0" || t == "0.0")
  }

  function Text(s: Scalar): string {
    match s
    case IntVal(i) => FormatInt(i)
    case UintVal(u) => FormatInt(u)
    case BoolVal(b) => if b then "true" else "false"
    case StringVal(t) => t
  }

  /** reflect's SetInt on a narrower kind keeps the low bits. */
  function WrapInt(v: int, bits: nat): int {
    var m := Modulus(bits);
    (v + m / 2) % m - m / 2
  }

  function FromText(t: string, k: Kind): (s: Scalar)
    ensures HasKind(s, k)
  {
    match k
    case IntKind(bits) => IntVal(match ParseInt(t) case None => 0 case Some(v) => WrapInt(v, bits))
    case UintKind(bits) => UintVal(match ParseUint(t) case None => 0 case Some(v) => v % Modulus(bits))
    case BoolKind => BoolVal(Atob(t))
    case StringKind => StringVal(t)
  }

  lemma TextRoundTrip(s: Scalar, k: Kind)
    requires HasKind(s, k)
    ensures FromText(Text(s), k) == s
  {
    match k
    case IntKind(bits) =>
      IntTextRoundTrip(s.i, bits);
    case UintKind(bits) =>
      UintTextRoundTrip(s.u, bits);
    case BoolKind =>
      AtobRoundTrip();
    case StringKind =>
  }

  lemma IntTextRoundTrip(i: int, bits: nat)
    requires HasKind(IntVal(i), IntKind(bits))
    ensures FromText(FormatInt(i), IntKind(bits)) == IntVal(i)
  {
    assert -TWO_63 <= i < TWO_63;
    IntRoundTrip(i);
    WrapInRange(i, bits);
  }

  lemma UintTextRoundTrip(u: int, bits: nat)
    requires HasKind(UintVal(u), UintKind(bits))
    ensures FromText(FormatInt(u), UintKind(bits)) == UintVal(u)
  {
    assert 0 <= u < TWO_64;
    IntRoundTrip(u);
    ModUnique(u, 0, u, Modulus(bits));
  }

  lemma WrapInRange(v: int, bits: nat)
    requires -Modulus(bits) <= 2 * v < Modulus(bits)
    ensures WrapInt(v, bits) == v
  {
    var m := Modulus(bits);
    assert m == 2 * (m / 2);
    ModUnique(v + m / 2, 0, v + m / 2, m);
  }

  lemma AtobRoundTrip()
    ensures Atob("true") && !Atob("false")
  {
    LowerCase("true");
    LowerCase("false");
    assert TrimLeft("true") == "true" && TrimRight("true") == "true";
    assert TrimLeft("false") == "false" && TrimRight("false") == "false";
  }

  lemma LowerCase(s: string)
    requires forall i | 0 <= i < |s| :: 'a' <= s[i] <= 'z'
    ensures seq(|s|, i requires 0 <= i < |s| => Lower(s[i])) == s
  {
  }

  // ----- names -----

  function Item(name: string, i: nat): string {
    name + "[" + Digits(i) + "]"
  }

  function Member(name: string, field: string): string {
    name + "." + field
  }

  function Entry(name: string, key: string): string {
    name + "[" + key + "]"
  }

  /** Whether a key belongs to a name: it is the name, or goes on after it with a dot or a bracket. */
  predicate Extends(name: string, key: string) {
    name <= key && (|key| == |name| || key[|name|] == '.' || key[|name|] == '[')
  }

  function Find(s: string, c: char): (i: nat)
    ensures i <= |s| && (i < |s| ==> s[i] == c) && forall j | 0 <= j < i :: s[j] != c
  {
    if s == [] || s[0] == c then 0 else 1 + Find(s[1..], c)
  }

  /** nextKey: up to the first dot or bracket. */
  function NextKey(key: string): (r: string)
    ensures r <= key && NameOk(r) && (|r| < |key| ==> key[|r|] == '.' || key[|r|] == '[')
  {
    if key == [] || key[0] == '.' || key[0] == '[' then [] else
    var rest := NextKey(key[1..]);
    [key[0]] + rest
  }

  /** The part of a bracketed key, counted from the name's end, up to and including the first closing
      bracket; just "" when there is none. */
  function Bracketed(name: string, key: string): (n: nat)
    requires name <= key
    ensures n <= |key| - |name|
  {
    var tail := key[|name|..];
    if Find(tail, ']') == |tail| then 0 else Find(tail, ']') + 1
  }

  predicate IsItem(name: string, key: string) {
    name + "[" <= key
  }

  /** The index processElement extracts: -1 without one, and 0 for text that is no number. */
  function IndexOf(name: string, key: string): int
    requires IsItem(name, key)
  {
    var n := Bracketed(name, key);
    if n > 2 then Atoi(key[|name| + 1..|name| + n - 1]) else -1
  }

  /** The name the element under such a key is bound by. */
  function ItemName(name: string, key: string): string
    requires IsItem(name, key)
  {
    key[..|name| + Bracketed(name, key)]
  }

  // ----- printing: Unbind -----

  /** The keys and texts that Unbind writes for a value. */
  ghost function Flat(name: string, v: Val, ty: Ty): map<string, string>
    requires HasType(v, ty)
    decreases v
  {
    match ty
    case ScalarTy(_) => map[name := Text(v.scalar)]
    case SliceTy(elem) => if IsBytes(ty) then map[] else Union(ElemParts(name, v.elems, elem))
    case StructTy(fs) => Union(FieldParts(name, v.vals, fs))
    case MapTy(_, _) => FlatEntries(name, v.entries)
  }

  ghost function ElemParts(name: string, es: seq<Val>, elem: Ty): (parts: seq<map<string, string>>)
    requires forall i | 0 <= i < |es| :: HasType(es[i], elem)
    decreases es
  {
    seq(|es|, i requires 0 <= i < |es| => Flat(Item(name, i), es[i], elem))
  }

  ghost function FieldParts(name: string, vs: seq<Val>, fs: seq<Field>): (parts: seq<map<string, string>>)
    requires |vs| == |fs| && forall i | 0 <= i < |fs| :: HasType(vs[i], fs[i].ty)
    decreases vs
  {
    seq(|fs|, i requires 0 <= i < |fs| => Flat(Member(name, fs[i].name), vs[i], fs[i].ty))
  }

  /** Writing maps one after another, the later ones over the earlier. */
  function Union(parts: seq<map<string, string>>): map<string, string> {
    if parts == [] then map[] else Union(parts[..|parts| - 1]) + parts[|parts| - 1]
  }

  predicate IsEntry(name: string, key: string) {
    name + "[" <= key && key[|key| - 1] == ']'
  }

  /** The text between the outermost brackets. */
  function EntryKey(name: string, key: string): string
    requires IsEntry(name, key)
  {
    key[|name| + 1..|key| - 1]
  }

  function EntryNames(name: string, m: map<Scalar, Scalar>): set<string> {
    set k | k in m :: Entry(name, Text(k))
  }

  /** The map key printed as `key`; different keys of one kind have different texts. */
  ghost function EntryOf(name: string, m: map<Scalar, Scalar>, key: string): (k: Scalar)
    requires key in EntryNames(name, m)
    ensures k in m && Entry(name, Text(k)) == key
  {
    var k :| k in m && Entry(name, Text(k)) == key; k
  }

  ghost function FlatEntries(name: string, m: map<Scalar, Scalar>): map<string, string> {
    map key | key in EntryNames(name, m) :: Text(m[EntryOf(name, m, key)])
  }

  // ----- reading: Bind -----

  /** The parameters a name owns. */
  function Part(p: Params, name: string): Params {
    map key | key in p && Extends(name, key) :: p[key]
  }

  /** What Unbind's output is as request parameters: one value each. */
  function Lift(flat: map<string, string>): Params {
    map key | key in flat :: [flat[key]]
  }

  ghost function Pick(keys: set<string>): string
    requires keys != {}
    ensures Pick(keys) in keys
  {
    var k :| k in keys; k
  }

  function Indexed(p: Params, name: string): set<string> {
    set key | key in p && IsItem(name, key) && IndexOf(name, key) > -1
  }

  /** Unindexed keys that have values. */
  function Loose(p: Params, name: string): set<string> {
    set key | key in p && IsItem(name, key) && IndexOf(name, key) <= -1 && p[key] != []
  }

  function WithIndex(p: Params, name: string, i: nat): set<string> {
    set key | key in p && IsItem(name, key) && IndexOf(name, key) == i
  }

  /** One more than the greatest index used, 0 without any. */
  ghost function Count(keys: set<string>, name: string): (n: nat)
    requires forall key | key in keys :: IsItem(name, key) && IndexOf(name, key) > -1
    ensures forall key | key in keys :: IndexOf(name, key) < n
    ensures n > 0 ==> exists key | key in keys :: IndexOf(name, key) == n - 1
  {
    if keys == {} then 0 else
    var key := Pick(keys);
    var rest := Count(keys - {key}, name);
    if IndexOf(name, key) < rest then rest else IndexOf(name, key) + 1
  }

  /** ValueBinder: the first value under the name itself. */
  function BindScalar(p: Params, name: string, k: Kind): (s: Scalar)
    ensures HasKind(s, k)
  {
    if name !in p || p[name] == [] then ZeroScalar(k) else FromText(p[name][0], k)
  }

  /** BindValue: one text as the only parameter, under the empty name. */
  function Single(text: string): Params {
    map["" := [text]]
  }

  function EntriesOf(p: Params, name: string): set<string> {
    set key | key in p && IsEntry(name, key)
  }

  function BoundKeys(p: Params, name: string, key: Kind): set<Scalar> {
    set k | k in EntriesOf(p, name) :: FromText(EntryKey(name, k), key)
  }

  /** The parameter names that stand for map key s. */
  function Spellings(p: Params, name: string, key: Kind, s: Scalar): set<string> {
    set k | k in EntriesOf(p, name) && FromText(EntryKey(name, k), key) == s
  }

  ghost function BindEntry(p: Params, name: string, key: Kind, val: Kind, s: Scalar): (v: Scalar)
    requires s in BoundKeys(p, name, key)
    ensures HasKind(v, val)
  {
    var names := Spellings(p, name, key, s);
    assert names != {} by {
      var k :| k in EntriesOf(p, name) && s == FromText(EntryKey(name, k), key);
      assert k in names;
    }
    var texts := p[Pick(names)];
    if texts == [] then ZeroScalar(val) else FromText(texts[0], val)
  }

  ghost function BindEntries(p: Params, name: string, key: Kind, val: Kind): map<Scalar, Scalar> {
    map s | s in BoundKeys(p, name, key) :: BindEntry(p, name, key, val, s)
  }

  /** The values given without an index. */
  ghost function LooseTexts(p: Params, name: string): seq<string> {
    if Loose(p, name) == {} then [] else p[Pick(Loose(p, name))]
  }

  ghost function Length(p: Params, name: string): nat {
    Count(Indexed(p, name), name)
  }

  /** The value of the parameters under a name, for parameters that leave the order of reading no say
      (see OrderFree); where they do, one of the possible outcomes. */
  ghost function Bind(p: Params, name: string, ty: Ty): Val
    decreases ty, 0
  {
    match ty
    case ScalarTy(k) => Plain(BindScalar(p, name, k))
    case SliceTy(elem) => Slice(if IsBytes(ty) then [] else BindElems(p, name, elem))
    case StructTy(fs) =>
      Struct(seq(|fs|, i requires 0 <= i < |fs| => Bind(p, Member(name, fs[i].name), fs[i].ty)))
    case MapTy(key, val) => Map(BindEntries(p, name, key, val))
  }

  /** The elements with an index, gaps filled with zeros, and then those without. */
  ghost function BindElems(p: Params, name: string, elem: Ty): seq<Val>
    decreases elem, 3
  {
    IndexedValues(p, name, elem) + LooseValues(LooseTexts(p, name), elem)
  }

  ghost function IndexedValues(p: Params, name: string, elem: Ty): (es: seq<Val>)
    ensures |es| == Length(p, name)
    decreases elem, 2
  {
    seq(Length(p, name), i requires 0 <= i < Length(p, name) => BindItem(p, name, elem, i))
  }

  ghost function LooseValues(texts: seq<string>, elem: Ty): (es: seq<Val>)
    ensures |es| == |texts|
    decreases elem, 1
  {
    seq(|texts|, i requires 0 <= i < |texts| => Bind(Single(texts[i]), "", elem))
  }

  /** Element i of a slice: bound by its own name, or zero when no parameter has that index. */
  ghost function BindItem(p: Params, name: string, elem: Ty, i: nat): Val
    decreases elem, 1
  {
    var keys := WithIndex(p, name, i);
    if keys == {} then Zero(elem) else Bind(p, ItemName(name, Pick(keys)), elem)
  }

  /** At most one unindexed key has values. */
  ghost predicate OneLoose(p: Params, name: string) {
    forall k, l | k in Loose(p, name) && l in Loose(p, name) :: k == l
  }

  /** The parameters under a name do not depend on the order in which they are read: no index has two
      spellings, at most one unindexed key has values, and no two entries of a map have the same key. */
  ghost predicate OrderFree(p: Params, name: string, ty: Ty)
    decreases ty
  {
    match ty
    case ScalarTy(_) => true
    case SliceTy(elem) =>
      IsBytes(ty) ||
      (&& (forall k, l | k in Indexed(p, name) && l in Indexed(p, name) && IndexOf(name, k) == IndexOf(name, l) ::
             ItemName(name, k) == ItemName(name, l))
       && OneLoose(p, name)
       && (forall k | k in Indexed(p, name) :: OrderFree(p, ItemName(name, k), elem)))
    case StructTy(fs) => forall i | 0 <= i < |fs| :: OrderFree(p, Member(name, fs[i].name), fs[i].ty)
    case MapTy(key, _) =>
      forall k, l | k in EntriesOf(p, name) && l in EntriesOf(p, name)
                    && FromText(EntryKey(name, k), key) == FromText(EntryKey(name, l), key) :: k == l
  }
}
