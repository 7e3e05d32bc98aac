/** The loops of controller/binder.go, which range over maps in any order, proved against the functions of
    Binder. */
module BinderLoops {
  import opened Binder
  import opened BinderLaws
  import opened BinderRoundTrip

  // ----- Unbind -----

  /** The map that Unbind fills. */
  class Output {
    var m: map<string, string>

    constructor ()
      ensures m == map[]
    {
      m := map[];
    }
  }

  method Unbind(out: Output, name: string, v: Val, ty: Ty)
    requires HasType(v, ty)
    modifies out
    ensures out.m == old(out.m) + Flat(name, v, ty)
    decreases ty, 1
  {
    match ty
    case ScalarTy(_) => UnbindScalar(out, name, v.scalar);
    case SliceTy(elem) =>
      if !IsBytes(ty) {
        UnbindSlice(out, name, v.elems, elem);
      }
    case StructTy(fs) => UnbindStruct(out, name, v.vals, fs);
    case MapTy(key, val) => UnbindMap(out, name, v.entries, key, val);
  }

  /** The int, uint, bool and string binders. */
  method UnbindScalar(out: Output, name: string, s: Scalar)
    modifies out
    ensures out.m == old(out.m)[name := Text(s)]
  {
    out.m := out.m[name := Text(s)];
  }

  lemma OneMorePart(first: map<string, string>, parts: seq<map<string, string>>, i: nat)
    requires i < |parts|
    ensures (first + Union(parts[..i])) + parts[i] == first + Union(parts[..i + 1])
  {
    assert parts[..i + 1][..i] == parts[..i];
  }

  method UnbindSlice(out: Output, name: string, es: seq<Val>, elem: Ty)
    requires forall i | 0 <= i < |es| :: HasType(es[i], elem)
    modifies out
    ensures out.m == old(out.m) + Union(ElemParts(name, es, elem))
    decreases elem, 2
  {
    ghost var parts := ElemParts(name, es, elem);
    for i := 0 to |es|
      invariant out.m == old(out.m) + Union(parts[..i])
    {
      Unbind(out, Item(name, i), es[i], elem);
      OneMorePart(old(out.m), parts, i);
    }
    assert parts[..|es|] == parts;
  }

  method UnbindStruct(out: Output, name: string, vs: seq<Val>, fs: seq<Field>)
    requires |vs| == |fs| && forall i | 0 <= i < |fs| :: HasType(vs[i], fs[i].ty)
    modifies out
    ensures out.m == old(out.m) + Union(FieldParts(name, vs, fs))
    decreases fs, 2
  {
    ghost var parts := FieldParts(name, vs, fs);
    for i := 0 to |fs|
      invariant out.m == old(out.m) + Union(parts[..i])
    {
      Unbind(out, Member(name, fs[i].name), vs[i], fs[i].ty);
      OneMorePart(old(out.m), parts, i);
    }
    assert parts[..|fs|] == parts;
  }

  method UnbindMap(out: Output, name: string, m: map<Scalar, Scalar>, key: Kind, val: Kind)
    requires forall k | k in m :: HasKind(k, key) && HasKind(m[k], val)
    modifies out
    ensures out.m == old(out.m) + FlatEntries(name, m)
  {
    var keys := m.Keys;
    assert m - keys == map[];
    while keys != {}
      invariant keys <= m.Keys
      invariant out.m == old(out.m) + FlatEntries(name, m - keys)
      decreases keys
    {
      var k :| k in keys;
      UnbindScalar(out, Entry(name, Text(k)), m[k]);
      OneLeft(m, keys, k);
      OneMoreEntry(name, m - keys, key, k, m[k]);
      UpdateLast(old(out.m), FlatEntries(name, m - keys), Entry(name, Text(k)), Text(m[k]));
      keys := keys - {k};
    }
    assert m - {} == m;
  }

  lemma OneLeft(m: map<Scalar, Scalar>, keys: set<Scalar>, k: Scalar)
    requires k in keys && k in m
    ensures m - (keys - {k}) == (m - keys)[k := m[k]]
  {
  }

  lemma UpdateLast(a: map<string, string>, b: map<string, string>, k: string, t: string)
    ensures (a + b)[k := t] == a + b[k := t]
  {
  }

  lemma OneMoreEntry(name: string, m: map<Scalar, Scalar>, key: Kind, k: Scalar, v: Scalar)
    requires k !in m && HasKind(k, key) && forall l | l in m :: HasKind(l, key)
    ensures FlatEntries(name, m[k := v]) == FlatEntries(name, m)[Entry(name, Text(k)) := Text(v)]
  {
    var n := m[k := v];
    forall l | l in n
      ensures Entry(name, Text(l)) in EntryNames(name, n) && EntryOf(name, n, Entry(name, Text(l))) == l
      ensures l in m ==> Entry(name, Text(l)) in EntryNames(name, m) && EntryOf(name, m, Entry(name, Text(l))) == l
    {
      EntryIsOne(name, n, key, l);
      if l in m {
        EntryIsOne(name, m, key, l);
      }
    }
    assert EntryNames(name, n) == EntryNames(name, m) + {Entry(name, Text(k))};
  }

  lemma EntryIsOne(name: string, m: map<Scalar, Scalar>, key: Kind, l: Scalar)
    requires l in m && forall l | l in m :: HasKind(l, key)
    ensures Entry(name, Text(l)) in EntryNames(name, m) && EntryOf(name, m, Entry(name, Text(l))) == l
  {
    var e := Entry(name, Text(l));
    assert e in EntryNames(name, m);
    var o := EntryOf(name, m, e);
    EntryName(name, Text(l));
    EntryName(name, Text(o));
    TextRoundTrip(l, key);
    TextRoundTrip(o, key);
  }

  // ----- Bind -----

  /** bindMap takes the first value of an entry without asking whether there is one: every entry of a map
      bound under the name must have one. */
  predicate ListsOk(p: Params, name: string, ty: Ty)
    decreases ty
  {
    match ty
    case ScalarTy(_) => true
    case SliceTy(elem) => forall k | k in Indexed(p, name) :: ListsOk(p, ItemName(name, k), elem)
    case StructTy(fs) => forall i | 0 <= i < |fs| :: ListsOk(p, Member(name, fs[i].name), fs[i].ty)
    case MapTy(_, _) => forall k | k in EntriesOf(p, name) :: p[k] != []
  }

  /** As is the case for what form parsing and Unbind make. */
  lemma {:induction false} NoEmptyList(p: Params, name: string, ty: Ty)
    requires forall k | k in p :: p[k] != []
    ensures ListsOk(p, name, ty)
    decreases ty
  {
    match ty
    case ScalarTy(_) =>
    case SliceTy(elem) =>
      forall k | k in Indexed(p, name)
        ensures ListsOk(p, ItemName(name, k), elem)
      {
        NoEmptyList(p, ItemName(name, k), elem);
      }
    case StructTy(fs) =>
      forall i | 0 <= i < |fs|
        ensures ListsOk(p, Member(name, fs[i].name), fs[i].ty)
      {
        NoEmptyList(p, Member(name, fs[i].name), fs[i].ty);
      }
    case MapTy(_, _) =>
  }

  method Bind(p: Params, name: string, ty: Ty) returns (v: Val)
    requires TyOk(ty) && ListsOk(p, name, ty)
    ensures OrderFree(p, name, ty) ==> v == Binder.Bind(p, name, ty)
    decreases ty, 1
  {
    match ty
    case ScalarTy(k) =>
      if name !in p || |p[name]| == 0 {
        return Zero(ty);
      }
      return Plain(FromText(p[name][0], k));
    case SliceTy(elem) =>
      if IsBytes(ty) {
        return Slice([]);
      }
      v := BindSlice(p, name, elem);
    case StructTy(fs) =>
      v := BindStruct(p, name, fs);
    case MapTy(key, val) =>
      v := BindMap(p, name, key, val);
  }

  method BindValue(text: string, ty: Ty) returns (v: Val)
    requires TyOk(ty)
    ensures v == Binder.Bind(Single(text), "", ty)
    decreases ty, 2
  {
    AloneOrderFree(Single(text), "", ty);
    NoEmptyList(Single(text), "", ty);
    v := Bind(Single(text), "", ty);
  }

  /** An element as bindSlice collects it; index -1 when none was given. */
  datatype SliceValue = SliceValue(index: int, value: Val)

  /** The collected values without an index, in the order they were collected. */
  function Unplaced(svs: seq<SliceValue>): seq<Val> {
    if svs == [] then []
    else Unplaced(svs[..|svs| - 1]) + if svs[|svs| - 1].index == -1 then [svs[|svs| - 1].value] else []
  }

  /** How many values the keys have together. */
  ghost function ValueCount(p: Params, keys: set<string>): nat
    requires keys <= p.Keys
  {
    if keys == {} then 0 else var k := Pick(keys); |p[k]| + ValueCount(p, keys - {k})
  }

  lemma {:induction false} ValueCountWithout(p: Params, keys: set<string>, k: string)
    requires keys <= p.Keys && k in keys
    ensures ValueCount(p, keys) == |p[k]| + ValueCount(p, keys - {k})
  {
    var j := Pick(keys);
    if j != k {
      ValueCountWithout(p, keys - {j}, k);
      ValueCountWithout(p, keys - {k}, j);
      assert keys - {j} - {k} == keys - {k} - {j};
    }
  }

  /** How many values the parameters have for the slice without giving an index. */
  ghost function LooseCount(p: Params, name: string): nat {
    ValueCount(p, Loose(p, name))
  }

  /** One key less to count. */
  lemma LooseLeft(p: Params, name: string, keys: set<string>, key: string)
    requires keys <= p.Keys && key in keys
    ensures ValueCount(p, Loose(p, name) * keys) ==
            ValueCount(p, Loose(p, name) * (keys - {key}))
            + if IsItem(name, key) && IndexOf(name, key) <= -1 then |p[key]| else 0
  {
    var all := Loose(p, name) * keys;
    if key in all {
      ValueCountWithout(p, all, key);
      assert all - {key} == Loose(p, name) * (keys - {key});
    } else {
      assert all == Loose(p, name) * (keys - {key});
    }
  }

  /** Indexed values stand in their places, zeros where there is none, the others at the end. */
  ghost predicate Placed(svs: seq<SliceValue>, n: nat, elem: Ty, result: seq<Val>) {
    && |result| == n + |Unplaced(svs)| && result[n..] == Unplaced(svs)
    && forall i | 0 <= i < n ::
         if HasIndex(svs, i) then exists sv | sv in svs :: sv.index == i && sv.value == result[i]
         else result[i] == Zero(elem)
  }

  /** bindSlice's second half. */
  method Place(svs: seq<SliceValue>, n: nat, elem: Ty) returns (result: seq<Val>)
    requires forall sv | sv in svs :: -1 <= sv.index < n
    ensures Placed(svs, n, elem, result)
  {
    result := seq(n, _ => Zero(elem));
    for k := 0 to |svs|
      invariant Placed(svs[..k], n, elem, result)
    {
      assert svs[k] in svs && svs[..k + 1][..k] == svs[..k];
      ghost var before := result;
      if svs[k].index != -1 {
        result := result[svs[k].index := svs[k].value];
      } else {
        result := result + [svs[k].value];
      }
      PlaceOne(svs[..k], svs[k], n, elem, before, result);
      assert svs[..k + 1] == svs[..k] + [svs[k]];
    }
    assert svs[..|svs|] == svs;
  }

  lemma PlaceOne(svs: seq<SliceValue>, sv: SliceValue, n: nat, elem: Ty, r: seq<Val>, s: seq<Val>)
    requires Placed(svs, n, elem, r) && -1 <= sv.index < n
    requires s == if sv.index != -1 then r[sv.index := sv.value] else r + [sv.value]
    ensures Placed(svs + [sv], n, elem, s)
  {
    var more := svs + [sv];
    assert more[..|svs|] == svs && sv in more;
    forall i | 0 <= i < n
      ensures if HasIndex(more, i) then exists x | x in more :: x.index == i && x.value == s[i] else s[i] == Zero(elem)
    {
      if i == sv.index {
        assert s[i] == sv.value;
      } else if HasIndex(svs, i) {
        var x :| x in svs && x.index == i && x.value == r[i];
        assert x in more;
      }
    }
  }

  /** What has been collected once the parameters outside `keys` are done: elements for exactly the indices
      those use, up to the greatest. */
  ghost predicate Gathered(p: Params, name: string, keys: set<string>, svs: seq<SliceValue>, maxIndex: int) {
    && maxIndex >= -1 && (maxIndex > -1 ==> WithIndex(p, name, maxIndex) != {})
    && (forall sv | sv in svs :: -1 <= sv.index <= maxIndex && (sv.index != -1 ==> WithIndex(p, name, sv.index) != {}))
    && (forall k | k in Indexed(p, name) && k !in keys :: HasIndex(svs, IndexOf(name, k)))
  }

  predicate HasIndex(svs: seq<SliceValue>, i: int) {
    exists sv | sv in svs :: sv.index == i
  }

  /** The value is what some parameter with the index is bound to, if the order has no say in that one. */
  ghost predicate OfSpelling(p: Params, name: string, elem: Ty, i: nat, v: Val) {
    exists k | k in WithIndex(p, name, i) ::
      OrderFree(p, ItemName(name, k), elem) ==> v == Binder.Bind(p, ItemName(name, k), elem)
  }

  /** Element i of a slice: zero, or what one of the parameters with the index is bound to. */
  ghost predicate PlaceRight(p: Params, name: string, elem: Ty, i: nat, v: Val) {
    if WithIndex(p, name, i) == {} then v == Zero(elem) else OfSpelling(p, name, elem, i, v)
  }

  /** Their values; those without an index when only one parameter gives such values. */
  ghost predicate ValuesRight(p: Params, name: string, elem: Ty, keys: set<string>, svs: seq<SliceValue>) {
    && (forall sv | sv in svs && sv.index > -1 :: OfSpelling(p, name, elem, sv.index, sv.value))
    && (OneLoose(p, name) ==>
          Unplaced(svs) == if Loose(p, name) <= keys then [] else LooseValues(LooseTexts(p, name), elem))
  }

  lemma UnplacedOne(svs: seq<SliceValue>, e: Val)
    ensures Unplaced(svs + [SliceValue(-1, e)]) == Unplaced(svs) + [e]
  {
    assert (svs + [SliceValue(-1, e)])[..|svs|] == svs;
  }

  lemma {:induction false} UnplacedSum(a: seq<SliceValue>, b: seq<SliceValue>)
    ensures Unplaced(a + b) == Unplaced(a) + Unplaced(b)
  {
    if b == [] {
      assert a + b == a;
    } else {
      var n := |b| - 1;
      assert (a + b)[..|a + b| - 1] == a + b[..n];
      UnplacedSum(a, b[..n]);
    }
  }

  lemma GatherIndexed(p: Params, name: string, keys: set<string>, svs: seq<SliceValue>, maxIndex: int,
                      key: string, e: Val)
    requires Gathered(p, name, keys, svs, maxIndex) && key in Indexed(p, name)
    ensures var i := IndexOf(name, key);
            && Gathered(p, name, keys - {key}, svs + [SliceValue(i, e)], if i > maxIndex then i else maxIndex)
            && Unplaced(svs + [SliceValue(i, e)]) == Unplaced(svs)
  {
    var i := IndexOf(name, key);
    var sv := SliceValue(i, e);
    assert key in WithIndex(p, name, i);
    assert sv in svs + [sv];
    forall k | k in Indexed(p, name) && k !in keys - {key}
      ensures HasIndex(svs + [sv], IndexOf(name, k))
    {
      if k != key {
        var prior :| prior in svs && prior.index == IndexOf(name, k);
        assert prior in svs + [sv];
      }
    }
    assert (svs + [sv])[..|svs|] == svs;
  }

  lemma GatherOther(p: Params, name: string, keys: set<string>, svs: seq<SliceValue>, maxIndex: int, key: string,
                    more: seq<SliceValue>)
    requires Gathered(p, name, keys, svs, maxIndex) && key !in Indexed(p, name)
    requires forall sv | sv in more :: sv.index == -1
    ensures Gathered(p, name, keys - {key}, svs + more, maxIndex)
  {
    forall k | k in Indexed(p, name) && k !in keys - {key}
      ensures HasIndex(svs + more, IndexOf(name, k))
    {
      var sv :| sv in svs && sv.index == IndexOf(name, k);
      assert sv in svs + more;
    }
  }

  lemma ValueIndexed(p: Params, name: string, elem: Ty, keys: set<string>, svs: seq<SliceValue>, key: string, e: Val)
    requires ValuesRight(p, name, elem, keys, svs) && key in Indexed(p, name)
    requires OrderFree(p, ItemName(name, key), elem) ==> e == Binder.Bind(p, ItemName(name, key), elem)
    ensures ValuesRight(p, name, elem, keys - {key}, svs + [SliceValue(IndexOf(name, key), e)])
  {
    var i := IndexOf(name, key);
    assert key in WithIndex(p, name, i) && OfSpelling(p, name, elem, i, e);
    assert key !in Loose(p, name);
    assert (svs + [SliceValue(i, e)])[..|svs|] == svs;
  }

  lemma ValueLoose(p: Params, name: string, elem: Ty, keys: set<string>, svs: seq<SliceValue>, key: string,
                   more: seq<SliceValue>)
    requires ValuesRight(p, name, elem, keys, svs)
    requires key in keys && key in p && IsItem(name, key) && IndexOf(name, key) <= -1
    requires Unplaced(more) == LooseValues(p[key], elem) && forall sv | sv in more :: sv.index == -1
    ensures ValuesRight(p, name, elem, keys - {key}, svs + more)
  {
    UnplacedSum(svs, more);
    if p[key] != [] {
      assert key in Loose(p, name);
      if OneLoose(p, name) {
        assert Pick(Loose(p, name)) == key;
        assert Loose(p, name) == {key};
      }
    } else {
      assert key !in Loose(p, name);
    }
  }

  lemma AllGathered(p: Params, name: string, svs: seq<SliceValue>, maxIndex: int)
    requires Gathered(p, name, {}, svs, maxIndex)
    ensures maxIndex + 1 == Length(p, name)
    ensures forall i: nat :: WithIndex(p, name, i) != {} <==> HasIndex(svs, i)
  {
    if maxIndex > -1 {
      var key :| key in WithIndex(p, name, maxIndex);
      assert key in Indexed(p, name);
    }
    if Length(p, name) > 0 {
      var key :| key in Indexed(p, name) && IndexOf(name, key) == Length(p, name) - 1;
      assert HasIndex(svs, IndexOf(name, key));
    }
    forall i: nat | WithIndex(p, name, i) != {}
      ensures HasIndex(svs, i)
    {
      var key :| key in WithIndex(p, name, i);
      assert key in Indexed(p, name);
    }
  }

  /** What has been collected once the parameters outside `keys` are done, with its values. */
  ghost predicate Collected(p: Params, name: string, elem: Ty, keys: set<string>, svs: seq<SliceValue>, maxIndex: int) {
    && Gathered(p, name, keys, svs, maxIndex)
    && |Unplaced(svs)| + ValueCount(p, Loose(p, name) * (p.Keys * keys)) == LooseCount(p, name)
    && ValuesRight(p, name, elem, keys, svs)
  }

  /** What one parameter adds. */
  ghost predicate Element(p: Params, name: string, elem: Ty, key: string, more: seq<SliceValue>)
    requires key in p
  {
    if !IsItem(name, key) then more == []
    else if IndexOf(name, key) > -1 then
      && |more| == 1 && more[0].index == IndexOf(name, key)
      && (OrderFree(p, ItemName(name, key), elem) ==> more[0].value == Binder.Bind(p, ItemName(name, key), elem))
    else Unplaced(more) == LooseValues(p[key], elem) && forall sv | sv in more :: sv.index == -1
  }

  lemma CollectedMore(p: Params, name: string, elem: Ty, keys: set<string>, svs: seq<SliceValue>, maxIndex: int,
                      key: string, more: seq<SliceValue>)
    requires Collected(p, name, elem, keys, svs, maxIndex) && key in keys && keys <= p.Keys
    requires Element(p, name, elem, key, more)
    ensures Collected(p, name, elem, keys - {key}, svs + more,
                      if key in Indexed(p, name) && IndexOf(name, key) > maxIndex then IndexOf(name, key) else maxIndex)
  {
    assert p.Keys * keys == keys && p.Keys * (keys - {key}) == keys - {key};
    LooseLeft(p, name, keys, key);
    UnplacedSum(svs, more);
    if key in Indexed(p, name) {
      assert more == [SliceValue(IndexOf(name, key), more[0].value)];
      GatherIndexed(p, name, keys, svs, maxIndex, key, more[0].value);
      ValueIndexed(p, name, elem, keys, svs, key, more[0].value);
    } else {
      GatherOther(p, name, keys, svs, maxIndex, key, more);
      if IsItem(name, key) {
        ValueLoose(p, name, elem, keys, svs, key, more);
      } else {
        assert key !in Loose(p, name) && svs + more == svs;
      }
    }
  }

  /** processElement: what one parameter adds. */
  method ProcessElement(p: Params, name: string, elem: Ty, key: string) returns (more: seq<SliceValue>)
    requires TyOk(elem) && ListsOk(p, name, SliceTy(elem)) && key in p
    ensures Element(p, name, elem, key, more)
    decreases elem, 4
  {
    if !IsItem(name, key) {
      return [];
    }
    var index := IndexOf(name, key);
    if index > -1 {
      assert key in Indexed(p, name);
      var e := Bind(p, ItemName(name, key), elem);
      return [SliceValue(index, e)];
    }
    more := BindLoose(p[key], elem);
  }

  /** processElement over every parameter, in any order: the elements collected, the greatest index, and the
      number of values without one. */
  method Collect(p: Params, name: string, elem: Ty) returns (svs: seq<SliceValue>, maxIndex: int, numNoIndex: nat)
    requires TyOk(elem) && ListsOk(p, name, SliceTy(elem))
    ensures Gathered(p, name, {}, svs, maxIndex) && numNoIndex == |Unplaced(svs)| == LooseCount(p, name)
    ensures ValuesRight(p, name, elem, {}, svs)
    decreases elem, 5
  {
    maxIndex, numNoIndex, svs := -1, 0, [];
    var keys := p.Keys;
    assert Loose(p, name) * (p.Keys * keys) == Loose(p, name);
    while keys != {}
      invariant keys <= p.Keys && numNoIndex == |Unplaced(svs)| && Collected(p, name, elem, keys, svs, maxIndex)
      decreases keys
    {
      var key :| key in keys;
      var more := ProcessElement(p, name, elem, key);
      CollectedMore(p, name, elem, keys, svs, maxIndex, key, more);
      UnplacedSum(svs, more);
      if IsItem(name, key) {
        if IndexOf(name, key) <= -1 {
          numNoIndex := numNoIndex + |p[key]|;
        } else if IndexOf(name, key) > maxIndex {
          maxIndex := IndexOf(name, key);
        }
      }
      svs := svs + more;
      keys := keys - {key};
    }
    assert Loose(p, name) * (p.Keys * keys) == {};
  }

  /** The values of one unindexed key. */
  method BindLoose(texts: seq<string>, elem: Ty) returns (svs: seq<SliceValue>)
    requires TyOk(elem)
    ensures |Unplaced(svs)| == |texts| && Unplaced(svs) == LooseValues(texts, elem)
    ensures forall sv | sv in svs :: sv.index == -1
    decreases elem, 3
  {
    svs := [];
    ghost var vals := LooseValues(texts, elem);
    for i := 0 to |texts|
      invariant Unplaced(svs) == vals[..i]
      invariant forall sv | sv in svs :: sv.index == -1
    {
      var e := BindValue(texts[i], elem);
      UnplacedOne(svs, e);
      assert vals[..i + 1] == vals[..i] + [e];
      svs := svs + [SliceValue(-1, e)];
    }
  }

  /** bindSlice: as many elements as the greatest index and the unindexed values ask for, whatever the order;
      zeros in the places no parameter has, in the others what one of the parameters with that index is
      bound to; the unindexed values behind them when one parameter gives them. Altogether the specified
      slice when the order has no say. */
  method BindSlice(p: Params, name: string, elem: Ty) returns (v: Val)
    requires TyOk(elem) && ListsOk(p, name, SliceTy(elem))
    ensures v.Slice? && |v.elems| == Length(p, name) + LooseCount(p, name)
    ensures forall i: nat | i < Length(p, name) :: PlaceRight(p, name, elem, i, v.elems[i])
    ensures OneLoose(p, name) ==> v.elems[Length(p, name)..] == LooseValues(LooseTexts(p, name), elem)
    ensures OrderFree(p, name, SliceTy(elem)) && !IsBytes(SliceTy(elem)) ==> v == Slice(BindElems(p, name, elem))
    decreases elem, 6
  {
    var svs, maxIndex, numNoIndex := Collect(p, name, elem);
    var result := Place(svs, maxIndex + 1, elem);
    v := Slice(result);
    AllPlaced(p, name, elem, svs, maxIndex, result);
  }

  lemma AllPlaced(p: Params, name: string, elem: Ty, svs: seq<SliceValue>, maxIndex: int, result: seq<Val>)
    requires Gathered(p, name, {}, svs, maxIndex) && ValuesRight(p, name, elem, {}, svs)
    requires Placed(svs, maxIndex + 1, elem, result)
    ensures Length(p, name) == maxIndex + 1
    ensures forall i: nat | i < Length(p, name) :: PlaceRight(p, name, elem, i, result[i])
    ensures OneLoose(p, name) ==> result[Length(p, name)..] == LooseValues(LooseTexts(p, name), elem)
    ensures OrderFree(p, name, SliceTy(elem)) && !IsBytes(SliceTy(elem)) ==> result == BindElems(p, name, elem)
  {
    AllGathered(p, name, svs, maxIndex);
    forall i: nat | i < Length(p, name)
      ensures PlaceRight(p, name, elem, i, result[i])
    {
      PlacedAt(p, name, elem, svs, result, i);
    }
    if OrderFree(p, name, SliceTy(elem)) && !IsBytes(SliceTy(elem)) {
      PlacedRight(p, name, elem, svs, result);
    }
  }

  lemma PlacedAt(p: Params, name: string, elem: Ty, svs: seq<SliceValue>, result: seq<Val>, i: nat)
    requires ValuesRight(p, name, elem, {}, svs) && Placed(svs, Length(p, name), elem, result) && i < Length(p, name)
    requires WithIndex(p, name, i) != {} <==> HasIndex(svs, i)
    ensures PlaceRight(p, name, elem, i, result[i])
  {
  }

  lemma PlacedRight(p: Params, name: string, elem: Ty, svs: seq<SliceValue>, result: seq<Val>)
    requires ValuesRight(p, name, elem, {}, svs) && Placed(svs, Length(p, name), elem, result)
    requires OrderFree(p, name, SliceTy(elem)) && !IsBytes(SliceTy(elem))
    requires forall i: nat :: WithIndex(p, name, i) != {} <==> HasIndex(svs, i)
    ensures result == BindElems(p, name, elem)
  {
    var n := Length(p, name);
    forall i | 0 <= i < n
      ensures result[i] == IndexedValues(p, name, elem)[i]
    {
      IndexedRight(p, name, elem, svs, result, i);
    }
    assert result[..n] == IndexedValues(p, name, elem);
    SplitAt(result, n);
  }

  lemma SplitAt(vs: seq<Val>, n: nat)
    requires n <= |vs|
    ensures vs == vs[..n] + vs[n..]
  {
  }

  lemma IndexedRight(p: Params, name: string, elem: Ty, svs: seq<SliceValue>, result: seq<Val>, i: nat)
    requires ValuesRight(p, name, elem, {}, svs) && Placed(svs, Length(p, name), elem, result) && i < Length(p, name)
    requires OrderFree(p, name, SliceTy(elem)) && !IsBytes(SliceTy(elem))
    requires WithIndex(p, name, i) != {} <==> HasIndex(svs, i)
    ensures result[i] == BindItem(p, name, elem, i)
  {
    PlacedAt(p, name, elem, svs, result, i);
    if HasIndex(svs, i) {
      var k :| k in WithIndex(p, name, i)
               && (OrderFree(p, ItemName(name, k), elem) ==> result[i] == Binder.Bind(p, ItemName(name, k), elem));
      assert k in Indexed(p, name) && Pick(WithIndex(p, name, i)) in Indexed(p, name);
    }
  }

  /** The value is that of some parameter that spells the key. */
  ghost predicate OfEntry(p: Params, name: string, key: Kind, val: Kind, s: Scalar, v: Scalar) {
    exists k | k in Spellings(p, name, key, s) :: p[k] != [] && v == FromText(p[k][0], val)
  }

  /** The entries made of the parameters outside `keys`. */
  ghost predicate EntriesRight(p: Params, name: string, key: Kind, val: Kind, keys: set<string>,
                               result: map<Scalar, Scalar>) {
    && (forall s | s in result :: s in BoundKeys(p, name, key) && OfEntry(p, name, key, val, s, result[s]))
    && (forall k | k in EntriesOf(p, name) && k !in keys :: FromText(EntryKey(name, k), key) in result)
  }

  lemma EntryOnce(p: Params, name: string, key: Kind, val: Kind, s: Scalar, v: Scalar)
    requires OrderFree(p, name, MapTy(key, val)) && s in BoundKeys(p, name, key) && OfEntry(p, name, key, val, s, v)
    ensures v == BindEntry(p, name, key, val, s)
  {
    var k :| k in Spellings(p, name, key, s) && p[k] != [] && v == FromText(p[k][0], val);
    var l := Pick(Spellings(p, name, key, s));
    assert k in EntriesOf(p, name) && l in EntriesOf(p, name);
  }

  lemma AllEntries(p: Params, name: string, key: Kind, val: Kind, result: map<Scalar, Scalar>)
    requires EntriesRight(p, name, key, val, {}, result)
    ensures result.Keys == BoundKeys(p, name, key)
    ensures OrderFree(p, name, MapTy(key, val)) ==> result == BindEntries(p, name, key, val)
  {
    assert result.Keys == BoundKeys(p, name, key);
    if OrderFree(p, name, MapTy(key, val)) {
      forall s | s in result
        ensures result[s] == BindEntry(p, name, key, val, s)
      {
        EntryOnce(p, name, key, val, s, result[s]);
      }
    }
  }

  /** bindMap: whatever the order, exactly the keys that are spelled, each with the value of one of its
      spellings. */
  method BindMap(p: Params, name: string, key: Kind, val: Kind) returns (v: Val)
    requires forall k | k in EntriesOf(p, name) :: p[k] != []
    ensures v.Map? && v.entries.Keys == BoundKeys(p, name, key)
    ensures forall s | s in v.entries :: OfEntry(p, name, key, val, s, v.entries[s])
    ensures OrderFree(p, name, MapTy(key, val)) ==> v == Map(BindEntries(p, name, key, val))
  {
    var result: map<Scalar, Scalar> := map[];
    var keys := p.Keys;
    while keys != {}
      invariant keys <= p.Keys && EntriesRight(p, name, key, val, keys, result)
      decreases keys
    {
      var k :| k in keys;
      keys := keys - {k};
      if IsEntry(name, k) {
        var s := FromText(EntryKey(name, k), key);
        assert k in EntriesOf(p, name) && k in Spellings(p, name, key, s);
        result := result[s := FromText(p[k][0], val)];
      }
    }
    AllEntries(p, name, key, val, result);
    v := Map(result);
  }

  /** Where FieldByName finds a field; the number of fields when there is none. */
  function FieldIndex(fs: seq<Field>, f: string): (i: nat)
    ensures i <= |fs| && (i < |fs| ==> fs[i].name == f) && forall j | 0 <= j < i :: fs[j].name != f
  {
    if fs == [] || fs[0].name == f then 0 else 1 + FieldIndex(fs[1..], f)
  }

  /** The value for the field, if the order of reading leaves it no say. */
  ghost predicate FieldRight(p: Params, name: string, f: Field, w: Val) {
    OrderFree(p, Member(name, f.name), f.ty) ==> w == Binder.Bind(p, Member(name, f.name), f.ty)
  }

  /** The fields bound once the parameters outside `keys` are done. */
  ghost predicate FieldsRight(p: Params, name: string, fs: seq<Field>, keys: set<string>, bound: set<string>,
                              result: seq<Val>) {
    && |result| == |fs|
    && forall i | 0 <= i < |fs| ::
         if fs[i].name in bound then FieldRight(p, name, fs[i], result[i])
         else result[i] == Zero(fs[i].ty) && forall k | k in p && k !in keys :: !Extends(Member(name, fs[i].name), k)
  }

  /** A parameter that belongs to no field, or to one that is bound already, changes nothing. */
  lemma FieldSkipped(p: Params, name: string, fs: seq<Field>, keys: set<string>, bound: set<string>,
                     result: seq<Val>, key: string)
    requires TyOk(StructTy(fs)) && FieldsRight(p, name, fs, keys, bound, result)
    requires name + "." <= key ==>
               var f := NextKey(key[|name| + 1..]); f in bound || forall i | 0 <= i < |fs| :: fs[i].name != f
    ensures FieldsRight(p, name, fs, keys - {key}, bound, result)
  {
    forall i | 0 <= i < |fs| && fs[i].name !in bound
      ensures !Extends(Member(name, fs[i].name), key)
    {
      if Extends(Member(name, fs[i].name), key) {
        MemberKey(name, fs[i].name, key);
      }
    }
  }

  lemma FieldBound(p: Params, name: string, fs: seq<Field>, keys: set<string>, bound: set<string>,
                   result: seq<Val>, key: string, i: nat, w: Val)
    requires TyOk(StructTy(fs)) && FieldsRight(p, name, fs, keys, bound, result) && i < |fs|
    requires name + "." <= key && NextKey(key[|name| + 1..]) == fs[i].name && FieldRight(p, name, fs[i], w)
    ensures FieldsRight(p, name, fs, keys - {key}, bound + {fs[i].name}, result[i := w])
  {
    forall j | 0 <= j < |fs| && j != i
      ensures fs[j].name != fs[i].name && !Extends(Member(name, fs[j].name), key)
    {
      assert fs[j].name != fs[i].name;
      if Extends(Member(name, fs[j].name), key) {
        MemberKey(name, fs[j].name, key);
      }
    }
  }

  lemma AllFields(p: Params, name: string, fs: seq<Field>, bound: set<string>, result: seq<Val>)
    requires FieldsRight(p, name, fs, {}, bound, result)
    ensures forall i | 0 <= i < |fs| :: FieldRight(p, name, fs[i], result[i])
    ensures OrderFree(p, name, StructTy(fs)) ==> Struct(result) == Binder.Bind(p, name, StructTy(fs))
  {
    forall i | 0 <= i < |fs|
      ensures FieldRight(p, name, fs[i], result[i])
    {
      if fs[i].name !in bound {
        BindNothing(p, Member(name, fs[i].name), fs[i].ty);
      }
    }
    if OrderFree(p, name, StructTy(fs)) {
      assert result == Binder.Bind(p, name, StructTy(fs)).vals;
    }
  }

  /** bindStruct: each field for itself is the same for every order of the parameters when the order has
      no say in that field. */
  method BindStruct(p: Params, name: string, fs: seq<Field>) returns (v: Val)
    requires TyOk(StructTy(fs)) && ListsOk(p, name, StructTy(fs))
    ensures v.Struct? && |v.vals| == |fs| && forall i | 0 <= i < |fs| :: FieldRight(p, name, fs[i], v.vals[i])
    ensures OrderFree(p, name, StructTy(fs)) ==> v == Binder.Bind(p, name, StructTy(fs))
    decreases fs, 0
  {
    var result := seq(|fs|, i requires 0 <= i < |fs| => Zero(fs[i].ty));
    var fieldValues: set<string> := {};
    var keys := p.Keys;
    while keys != {}
      invariant keys <= p.Keys && FieldsRight(p, name, fs, keys, fieldValues, result)
      decreases keys
    {
      var key :| key in keys;
      var found := |fs|;
      if name + "." <= key && NextKey(key[|name| + 1..]) !in fieldValues {
        found := FieldIndex(fs, NextKey(key[|name| + 1..]));
      }
      if found < |fs| {
        var i := found;
        var member := key[..|name| + 1 + |fs[i].name|];
        assert member == Member(name, fs[i].name);
        var bound := Bind(p, member, fs[i].ty);
        FieldBound(p, name, fs, keys, fieldValues, result, key, i, bound);
        result := result[i := bound];
        fieldValues := fieldValues + {fs[i].name};
      } else {
        FieldSkipped(p, name, fs, keys, fieldValues, result, key);
      }
      keys := keys - {key};
    }
    AllFields(p, name, fs, fieldValues, result);
    v := Struct(result);
  }

  /** Printing a value and binding the result gives the value back, less what printing loses; the same
      value, for every order in which the maps are read, exactly when the value is faithful. */
  method PrintAndBind(name: string, v: Val, ty: Ty) returns (w: Val)
    requires HasType(v, ty) && TyOk(ty)
    ensures w == Normal(v, ty) && (w == v <==> Faithful(v, ty))
  {
    var out := new Output();
    Unbind(out, name, v, ty);
    assert out.m == Flat(name, v, ty);
    var p := Lift(out.m);
    forall key | key in p
      ensures Extends(name, key)
    {
      FlatKeys(name, v, ty, key);
    }
    assert Part(p, name) == p;
    RoundTrip(p, name, v, ty);
    NormalIsSame(v, ty);
    NoEmptyList(p, name, ty);
    w := Bind(p, name, ty);
  }
}
