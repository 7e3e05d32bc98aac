/** Binding what was printed: what Unbind loses, and that Bind gives back all the rest. */
module BinderRoundTrip {
  import opened Binder
  import opened BinderLaws

  // ----- what printing keeps -----

  /** Whether a value is printed under at least one key. */
  predicate Emits(v: Val, ty: Ty)
    requires HasType(v, ty)
    decreases ty
  {
    match ty
    case ScalarTy(_) => true
    case SliceTy(elem) => !IsBytes(ty) && exists i | 0 <= i < |v.elems| :: Emits(v.elems[i], elem)
    case StructTy(fs) => exists i | 0 <= i < |fs| :: Emits(v.vals[i], fs[i].ty)
    case MapTy(_, _) => v.entries != map[]
  }

  /** How many elements are left when those at the end that are printed under no key are dropped. */
  function Kept(es: seq<Val>, elem: Ty): (n: nat)
    requires forall i | 0 <= i < |es| :: HasType(es[i], elem)
    ensures n <= |es| && (n > 0 ==> Emits(es[n - 1], elem)) && forall i | n <= i < |es| :: !Emits(es[i], elem)
  {
    if es == [] || Emits(es[|es| - 1], elem) then |es| else Kept(es[..|es| - 1], elem)
  }

  /** What printing and binding make of a value: slices lose the elements at their end that print
      nothing, and byte slices come back empty. */
  function Normal(v: Val, ty: Ty): Val
    requires HasType(v, ty)
    decreases ty
  {
    match ty
    case ScalarTy(_) => v
    case SliceTy(elem) =>
      if IsBytes(ty) then Slice([])
      else Slice(seq(Kept(v.elems, elem), i requires 0 <= i < Kept(v.elems, elem) => Normal(v.elems[i], elem)))
    case StructTy(fs) => Struct(seq(|fs|, i requires 0 <= i < |fs| => Normal(v.vals[i], fs[i].ty)))
    case MapTy(_, _) => v
  }

  /** The last element of every slice in v is printed under at least one key, and every byte slice is empty. */
  predicate Faithful(v: Val, ty: Ty)
    requires HasType(v, ty)
    decreases ty
  {
    match ty
    case ScalarTy(_) => true
    case SliceTy(elem) =>
      if IsBytes(ty) then v.elems == []
      else
        && (v.elems != [] ==> Emits(v.elems[|v.elems| - 1], elem))
        && forall i | 0 <= i < |v.elems| :: Faithful(v.elems[i], elem)
    case StructTy(fs) => forall i | 0 <= i < |fs| :: Faithful(v.vals[i], fs[i].ty)
    case MapTy(_, _) => true
  }

  /** Nothing is lost exactly by the faithful values. */
  lemma {:induction false} NormalIsSame(v: Val, ty: Ty)
    requires HasType(v, ty)
    ensures Normal(v, ty) == v <==> Faithful(v, ty)
    decreases ty
  {
    match ty
    case ScalarTy(_) =>
    case SliceTy(elem) =>
      if !IsBytes(ty) {
        var n := Kept(v.elems, elem);
        forall i | 0 <= i < |v.elems|
          ensures Normal(v.elems[i], elem) == v.elems[i] <==> Faithful(v.elems[i], elem)
        {
          NormalIsSame(v.elems[i], elem);
        }
        var w := Normal(v, ty);
        assert w == v <==> w.elems == v.elems;
        if n == |v.elems| {
          assert w.elems == v.elems <==> forall i | 0 <= i < n :: w.elems[i] == v.elems[i];
        }
      }
    case StructTy(fs) =>
      forall i | 0 <= i < |fs|
        ensures Normal(v.vals[i], fs[i].ty) == v.vals[i] <==> Faithful(v.vals[i], fs[i].ty)
      {
        NormalIsSame(v.vals[i], fs[i].ty);
      }
      var w := Normal(v, ty);
      assert w == v <==> w.vals == v.vals;
      assert w.vals == v.vals <==> forall i | 0 <= i < |fs| :: w.vals[i] == v.vals[i];
    case MapTy(_, _) =>
  }

  lemma {:induction false} SilentIsZero(v: Val, ty: Ty)
    requires HasType(v, ty) && !Emits(v, ty)
    ensures Normal(v, ty) == Zero(ty)
    decreases ty
  {
    match ty
    case ScalarTy(_) =>
    case SliceTy(elem) =>
      if !IsBytes(ty) {
        assert Kept(v.elems, elem) == 0;
      }
    case StructTy(fs) =>
      forall i | 0 <= i < |fs|
        ensures Normal(v.vals[i], fs[i].ty) == Zero(fs[i].ty)
      {
        SilentIsZero(v.vals[i], fs[i].ty);
      }
    case MapTy(_, _) =>
  }

  // ----- the keys of printed values -----

  /** Every key in a union comes from one of its parts. */
  lemma {:induction false} PartOf(parts: seq<map<string, string>>, key: string) returns (i: nat)
    requires key in Union(parts)
    ensures i < |parts| && key in parts[i]
  {
    var n := |parts| - 1;
    if key in parts[n] {
      i := n;
    } else {
      i := PartOf(parts[..n], key);
    }
  }

  /** A key that only one part can hold has in the union what it has there. */
  lemma {:induction false} OnlyPart(parts: seq<map<string, string>>, i: nat, key: string)
    requires i < |parts| && forall j | 0 <= j < |parts| && j != i :: key !in parts[j]
    ensures key in Union(parts) <==> key in parts[i]
    ensures key in parts[i] ==> Union(parts)[key] == parts[i][key]
  {
    var n := |parts| - 1;
    if i < n {
      OnlyPart(parts[..n], i, key);
    } else if key in Union(parts[..n]) {
      var j := PartOf(parts[..n], key);
    }
  }

  /** Printing under a name writes only keys that belong to the name. */
  lemma {:induction false} FlatKeys(name: string, v: Val, ty: Ty, k: string)
    requires HasType(v, ty) && TyOk(ty) && k in Flat(name, v, ty)
    ensures Extends(name, k)
    decreases ty
  {
    match ty
    case ScalarTy(_) =>
    case SliceTy(elem) =>
      var j := PartOf(ElemParts(name, v.elems, elem), k);
      FlatKeys(Item(name, j), v.elems[j], elem, k);
      assert Item(name, j)[|name|] == '[';
      ExtendsTransitive(name, Item(name, j), k);
    case StructTy(fs) =>
      var j := PartOf(FieldParts(name, v.vals, fs), k);
      FlatKeys(Member(name, fs[j].name), v.vals[j], fs[j].ty, k);
      MemberKey(name, fs[j].name, k);
    case MapTy(_, _) =>
      EntryName(name, Text(EntryOf(name, v.entries, k)));
  }

  /** Printing a slice writes, under the names of element i, exactly what printing that element writes. */
  lemma ElemPart(name: string, v: Val, elem: Ty, i: nat, key: string)
    requires HasType(v, SliceTy(elem)) && TyOk(elem) && i < |v.elems| && Extends(Item(name, i), key)
    ensures var whole, part := Union(ElemParts(name, v.elems, elem)), Flat(Item(name, i), v.elems[i], elem);
            (key in whole <==> key in part) && (key in whole ==> whole[key] == part[key])
  {
    var parts := ElemParts(name, v.elems, elem);
    ItemKey(name, i, key);
    forall j | 0 <= j < |parts| && j != i
      ensures key !in parts[j]
    {
      if key in parts[j] {
        FlatKeys(Item(name, j), v.elems[j], elem, key);
        ItemKey(name, j, key);
      }
    }
    OnlyPart(parts, i, key);
  }

  lemma FieldPart(name: string, v: Val, fs: seq<Field>, i: nat, key: string)
    requires HasType(v, StructTy(fs)) && TyOk(StructTy(fs)) && i < |fs| && Extends(Member(name, fs[i].name), key)
    ensures var whole, part := Union(FieldParts(name, v.vals, fs)), Flat(Member(name, fs[i].name), v.vals[i], fs[i].ty);
            (key in whole <==> key in part) && (key in whole ==> whole[key] == part[key])
  {
    var parts := FieldParts(name, v.vals, fs);
    MemberKey(name, fs[i].name, key);
    forall j | 0 <= j < |parts| && j != i
      ensures key !in parts[j]
    {
      if key in parts[j] {
        FlatKeys(Member(name, fs[j].name), v.vals[j], fs[j].ty, key);
        MemberKey(name, fs[j].name, key);
      }
    }
    OnlyPart(parts, i, key);
  }

  /** A value is printed under some key exactly when it emits. */
  lemma {:induction false} EmitsKey(name: string, v: Val, ty: Ty)
    requires HasType(v, ty) && TyOk(ty)
    ensures Flat(name, v, ty) != map[] <==> Emits(v, ty)
    decreases ty
  {
    match ty
    case ScalarTy(_) =>
      assert name in Flat(name, v, ty);
    case SliceTy(elem) =>
      if !IsBytes(ty) {
        if i :| 0 <= i < |v.elems| && Emits(v.elems[i], elem) {
          EmitsKey(Item(name, i), v.elems[i], elem);
          var k :| k in Flat(Item(name, i), v.elems[i], elem);
          FlatKeys(Item(name, i), v.elems[i], elem, k);
          ElemPart(name, v, elem, i, k);
        } else if k :| k in Flat(name, v, ty) {
          var i := PartOf(ElemParts(name, v.elems, elem), k);
          EmitsKey(Item(name, i), v.elems[i], elem);
        }
      }
    case StructTy(fs) =>
      if i :| 0 <= i < |fs| && Emits(v.vals[i], fs[i].ty) {
        var m := Member(name, fs[i].name);
        EmitsKey(m, v.vals[i], fs[i].ty);
        var k :| k in Flat(m, v.vals[i], fs[i].ty);
        FlatKeys(m, v.vals[i], fs[i].ty, k);
        FieldPart(name, v, fs, i, k);
      } else if k :| k in Flat(name, v, ty) {
        var i := PartOf(FieldParts(name, v.vals, fs), k);
        EmitsKey(Member(name, fs[i].name), v.vals[i], fs[i].ty);
      }
    case MapTy(_, _) =>
      if k :| k in v.entries {
        assert Entry(name, Text(k)) in EntryNames(name, v.entries);
        assert Entry(name, Text(k)) in Flat(name, v, ty);
      }
  }

  // ----- the round trip -----

  /** The parameters hold, under the name, exactly what printing v writes. */
  ghost predicate Holds(p: Params, name: string, v: Val, ty: Ty)
    requires HasType(v, ty)
  {
    Part(p, name) == Lift(Flat(name, v, ty))
  }

  /** Parameters that hold a whole hold a part of it under the part's name. */
  lemma PartHolds(p: Params, name: string, sub: string, whole: map<string, string>, part: map<string, string>)
    requires Part(p, name) == Lift(whole) && Extends(name, sub)
    requires forall key | key in part :: Extends(sub, key)
    requires forall key | Extends(sub, key) ::
               (key in whole <==> key in part) && (key in whole ==> whole[key] == part[key])
    ensures Part(p, sub) == Lift(part)
  {
    forall key
      ensures key in Part(p, sub) <==> key in Lift(part)
      ensures key in Part(p, sub) ==> Part(p, sub)[key] == Lift(part)[key]
    {
      if Extends(sub, key) {
        ExtendsTransitive(name, sub, key);
        assert key in p <==> key in Part(p, name);
        assert key in Lift(whole) <==> key in whole;
      }
    }
  }

  lemma ItemHolds(p: Params, name: string, v: Val, elem: Ty, i: nat)
    requires HasType(v, SliceTy(elem)) && TyOk(elem) && !IsBytes(SliceTy(elem)) && i < |v.elems|
    requires Holds(p, name, v, SliceTy(elem))
    ensures Holds(p, Item(name, i), v.elems[i], elem)
  {
    var item := Item(name, i);
    var whole, part := Flat(name, v, SliceTy(elem)), Flat(item, v.elems[i], elem);
    assert item[|name|] == '[';
    forall key | key in part
      ensures Extends(item, key)
    {
      FlatKeys(item, v.elems[i], elem, key);
    }
    forall key | Extends(item, key)
      ensures (key in whole <==> key in part) && (key in whole ==> whole[key] == part[key])
    {
      ElemPart(name, v, elem, i, key);
    }
    PartHolds(p, name, item, whole, part);
  }

  lemma MemberHolds(p: Params, name: string, v: Val, fs: seq<Field>, i: nat)
    requires HasType(v, StructTy(fs)) && TyOk(StructTy(fs)) && i < |fs|
    requires Holds(p, name, v, StructTy(fs))
    ensures Holds(p, Member(name, fs[i].name), v.vals[i], fs[i].ty)
  {
    var m := Member(name, fs[i].name);
    var whole, part := Flat(name, v, StructTy(fs)), Flat(m, v.vals[i], fs[i].ty);
    assert m[|name|] == '.';
    forall key | key in part
      ensures Extends(m, key)
    {
      FlatKeys(m, v.vals[i], fs[i].ty, key);
    }
    forall key | Extends(m, key)
      ensures (key in whole <==> key in part) && (key in whole ==> whole[key] == part[key])
    {
      FieldPart(name, v, fs, i, key);
    }
    PartHolds(p, name, m, whole, part);
  }

  /** A bracketed parameter that a printed slice put there belongs to one of its elements. */
  lemma ItemOfHeld(p: Params, name: string, v: Val, elem: Ty, key: string) returns (i: nat)
    requires HasType(v, SliceTy(elem)) && TyOk(elem) && !IsBytes(SliceTy(elem))
    requires Holds(p, name, v, SliceTy(elem)) && key in p && IsItem(name, key)
    ensures i < |v.elems| && key in Flat(Item(name, i), v.elems[i], elem)
    ensures IndexOf(name, key) == i && ItemName(name, key) == Item(name, i)
  {
    assert key[|name|] == (name + "[")[|name|];
    assert key in Part(p, name);
    i := PartOf(ElemParts(name, v.elems, elem), key);
    FlatKeys(Item(name, i), v.elems[i], elem, key);
    ItemKey(name, i, key);
  }

  lemma ItemInHeld(p: Params, name: string, v: Val, elem: Ty, i: nat) returns (key: string)
    requires HasType(v, SliceTy(elem)) && TyOk(elem) && !IsBytes(SliceTy(elem))
    requires Holds(p, name, v, SliceTy(elem)) && i < |v.elems| && Emits(v.elems[i], elem)
    ensures key in p && IsItem(name, key) && IndexOf(name, key) == i
  {
    EmitsKey(Item(name, i), v.elems[i], elem);
    key :| key in Flat(Item(name, i), v.elems[i], elem);
    FlatKeys(Item(name, i), v.elems[i], elem, key);
    ItemKey(name, i, key);
    ItemHolds(p, name, v, elem, i);
    assert key in Part(p, Item(name, i));
  }

  /** Which indices a printed slice uses: those of the elements that emit. */
  lemma UsedIndex(p: Params, name: string, v: Val, elem: Ty, i: nat)
    requires HasType(v, SliceTy(elem)) && TyOk(elem) && !IsBytes(SliceTy(elem))
    requires Holds(p, name, v, SliceTy(elem))
    ensures WithIndex(p, name, i) != {} <==> i < |v.elems| && Emits(v.elems[i], elem)
    ensures forall key | key in WithIndex(p, name, i) :: ItemName(name, key) == Item(name, i)
  {
    forall key | key in WithIndex(p, name, i)
      ensures i < |v.elems| && Emits(v.elems[i], elem) && ItemName(name, key) == Item(name, i)
    {
      var j := ItemOfHeld(p, name, v, elem, key);
      EmitsKey(Item(name, j), v.elems[j], elem);
    }
    if i < |v.elems| && Emits(v.elems[i], elem) {
      var key := ItemInHeld(p, name, v, elem, i);
      assert key in WithIndex(p, name, i);
    }
  }

  lemma NothingLoose(p: Params, name: string, v: Val, elem: Ty)
    requires HasType(v, SliceTy(elem)) && TyOk(elem) && !IsBytes(SliceTy(elem))
    requires Holds(p, name, v, SliceTy(elem))
    ensures Loose(p, name) == {}
  {
    if key :| key in Loose(p, name) {
      var i := ItemOfHeld(p, name, v, elem, key);
    }
  }

  lemma HeldBelow(p: Params, name: string, v: Val, elem: Ty)
    requires HasType(v, SliceTy(elem)) && TyOk(elem) && !IsBytes(SliceTy(elem))
    requires Holds(p, name, v, SliceTy(elem))
    ensures Length(p, name) <= Kept(v.elems, elem)
  {
    if key :| key in Indexed(p, name) && IndexOf(name, key) >= Kept(v.elems, elem) {
      var i := ItemOfHeld(p, name, v, elem, key);
      EmitsKey(Item(name, i), v.elems[i], elem);
    }
  }

  lemma UsedIsBelow(p: Params, name: string, i: nat)
    requires WithIndex(p, name, i) != {}
    ensures i < Length(p, name)
  {
    var key :| key in WithIndex(p, name, i);
    assert key in Indexed(p, name);
  }

  lemma EmitsIsBelow(p: Params, name: string, v: Val, elem: Ty)
    requires HasType(v, SliceTy(elem)) && TyOk(elem) && !IsBytes(SliceTy(elem))
    requires Holds(p, name, v, SliceTy(elem))
    ensures forall i | 0 <= i < |v.elems| && Emits(v.elems[i], elem) :: i < Length(p, name)
  {
    forall i | 0 <= i < |v.elems| && Emits(v.elems[i], elem)
      ensures i < Length(p, name)
    {
      UsedIndex(p, name, v, elem, i);
      UsedIsBelow(p, name, i);
    }
  }

  lemma KeptIsBelow(es: seq<Val>, elem: Ty, n: nat)
    requires forall i | 0 <= i < |es| :: HasType(es[i], elem)
    requires forall i | 0 <= i < |es| && Emits(es[i], elem) :: i < n
    ensures Kept(es, elem) <= n
  {
  }

  lemma HeldReaches(p: Params, name: string, v: Val, elem: Ty)
    requires HasType(v, SliceTy(elem)) && TyOk(elem) && !IsBytes(SliceTy(elem))
    requires Holds(p, name, v, SliceTy(elem))
    ensures Length(p, name) >= Kept(v.elems, elem)
  {
    EmitsIsBelow(p, name, v, elem);
    KeptIsBelow(v.elems, elem, Length(p, name));
  }

  lemma HeldLength(p: Params, name: string, v: Val, elem: Ty)
    requires HasType(v, SliceTy(elem)) && TyOk(elem) && !IsBytes(SliceTy(elem))
    requires Holds(p, name, v, SliceTy(elem))
    ensures Length(p, name) == Kept(v.elems, elem)
  {
    HeldBelow(p, name, v, elem);
    HeldReaches(p, name, v, elem);
  }

  /** A parameter that a printed map put there is one of its entries. */
  lemma HeldEntry(p: Params, name: string, v: Val, key: Kind, val: Kind, k: string) returns (s: Scalar)
    requires HasType(v, MapTy(key, val)) && Holds(p, name, v, MapTy(key, val)) && k in EntriesOf(p, name)
    ensures s in v.entries && k == Entry(name, Text(s)) && p[k] == [Text(v.entries[s])]
    ensures FromText(EntryKey(name, k), key) == s
  {
    assert k[|name|] == (name + "[")[|name|];
    assert k in Part(p, name);
    assert k in Flat(name, v, MapTy(key, val));
    s := EntryOf(name, v.entries, k);
    EntryName(name, Text(s));
    TextRoundTrip(s, key);
  }

  lemma EntryHeld(p: Params, name: string, v: Val, key: Kind, val: Kind, s: Scalar)
    requires HasType(v, MapTy(key, val)) && Holds(p, name, v, MapTy(key, val)) && s in v.entries
    ensures Entry(name, Text(s)) in Spellings(p, name, key, s) && s in BoundKeys(p, name, key)
  {
    var k := Entry(name, Text(s));
    EntryName(name, Text(s));
    TextRoundTrip(s, key);
    assert k in EntryNames(name, v.entries);
    assert k in Flat(name, v, MapTy(key, val));
    assert k in Part(p, name);
  }

  lemma EntryRoundTrip(p: Params, name: string, v: Val, key: Kind, val: Kind, s: Scalar)
    requires HasType(v, MapTy(key, val)) && Holds(p, name, v, MapTy(key, val)) && s in BoundKeys(p, name, key)
    ensures s in v.entries && BindEntry(p, name, key, val, s) == v.entries[s]
  {
    var k :| k in EntriesOf(p, name) && s == FromText(EntryKey(name, k), key);
    assert k in Spellings(p, name, key, s);
    var chosen := Pick(Spellings(p, name, key, s));
    var s' := HeldEntry(p, name, v, key, val, chosen);
    TextRoundTrip(v.entries[s], val);
  }

  lemma MapRoundTrip(p: Params, name: string, v: Val, key: Kind, val: Kind)
    requires HasType(v, MapTy(key, val)) && Holds(p, name, v, MapTy(key, val))
    ensures BindEntries(p, name, key, val) == v.entries
  {
    var bound := BindEntries(p, name, key, val);
    assert bound.Keys == v.entries.Keys by {
      forall s | s in v.entries
        ensures s in bound
      {
        EntryHeld(p, name, v, key, val, s);
      }
      forall s | s in bound
        ensures s in v.entries
      {
        EntryRoundTrip(p, name, v, key, val, s);
      }
    }
    forall s | s in bound
      ensures bound[s] == v.entries[s]
    {
      EntryRoundTrip(p, name, v, key, val, s);
    }
  }

  lemma MapOrderFree(p: Params, name: string, v: Val, key: Kind, val: Kind)
    requires HasType(v, MapTy(key, val)) && Holds(p, name, v, MapTy(key, val))
    ensures OrderFree(p, name, MapTy(key, val))
  {
    forall k, l | k in EntriesOf(p, name) && l in EntriesOf(p, name)
                  && FromText(EntryKey(name, k), key) == FromText(EntryKey(name, l), key)
      ensures k == l
    {
      var s := HeldEntry(p, name, v, key, val, k);
      var t := HeldEntry(p, name, v, key, val, l);
    }
  }

  /** Bind undoes Unbind up to what printing loses, and in parameters that leave the order of reading no
      say: for every well-typed value, whatever other parameters there are under other names. */
  lemma {:induction false} RoundTrip(p: Params, name: string, v: Val, ty: Ty)
    requires HasType(v, ty) && TyOk(ty) && Holds(p, name, v, ty)
    ensures Bind(p, name, ty) == Normal(v, ty) && OrderFree(p, name, ty)
    decreases ty
  {
    match ty
    case ScalarTy(k) =>
      assert name in Lift(Flat(name, v, ty));
      assert name in Part(p, name);
      TextRoundTrip(v.scalar, k);
    case SliceTy(elem) =>
      if !IsBytes(ty) {
        forall i | 0 <= i < |v.elems|
          ensures Bind(p, Item(name, i), elem) == Normal(v.elems[i], elem) && OrderFree(p, Item(name, i), elem)
        {
          ItemHolds(p, name, v, elem, i);
          RoundTrip(p, Item(name, i), v.elems[i], elem);
        }
        SliceRoundTrip(p, name, v, elem);
        SliceOrderFree(p, name, v, elem);
      }
    case StructTy(fs) =>
      forall i | 0 <= i < |fs|
        ensures Bind(p, Member(name, fs[i].name), fs[i].ty) == Normal(v.vals[i], fs[i].ty)
        ensures OrderFree(p, Member(name, fs[i].name), fs[i].ty)
      {
        MemberHolds(p, name, v, fs, i);
        RoundTrip(p, Member(name, fs[i].name), v.vals[i], fs[i].ty);
      }
    case MapTy(key, val) =>
      MapRoundTrip(p, name, v, key, val);
      MapOrderFree(p, name, v, key, val);
  }

  lemma SliceRoundTrip(p: Params, name: string, v: Val, elem: Ty)
    requires HasType(v, SliceTy(elem)) && TyOk(elem) && !IsBytes(SliceTy(elem))
    requires Holds(p, name, v, SliceTy(elem))
    requires forall i | 0 <= i < |v.elems| :: Bind(p, Item(name, i), elem) == Normal(v.elems[i], elem)
    ensures Slice(BindElems(p, name, elem)) == Normal(v, SliceTy(elem))
  {
    NothingLoose(p, name, v, elem);
    HeldLength(p, name, v, elem);
    var es := IndexedValues(p, name, elem);
    assert LooseValues(LooseTexts(p, name), elem) == [];
    assert BindElems(p, name, elem) == es;
    forall i | 0 <= i < |es|
      ensures es[i] == Normal(v.elems[i], elem)
    {
      ItemRoundTrip(p, name, v, elem, i);
    }
    assert es == Normal(v, SliceTy(elem)).elems;
  }

  lemma ItemRoundTrip(p: Params, name: string, v: Val, elem: Ty, i: nat)
    requires HasType(v, SliceTy(elem)) && TyOk(elem) && !IsBytes(SliceTy(elem)) && i < |v.elems|
    requires Holds(p, name, v, SliceTy(elem)) && Bind(p, Item(name, i), elem) == Normal(v.elems[i], elem)
    ensures BindItem(p, name, elem, i) == Normal(v.elems[i], elem)
  {
    UsedIndex(p, name, v, elem, i);
    if !Emits(v.elems[i], elem) {
      SilentIsZero(v.elems[i], elem);
    }
  }

  lemma SliceOrderFree(p: Params, name: string, v: Val, elem: Ty)
    requires HasType(v, SliceTy(elem)) && TyOk(elem) && !IsBytes(SliceTy(elem))
    requires Holds(p, name, v, SliceTy(elem))
    requires forall i | 0 <= i < |v.elems| :: OrderFree(p, Item(name, i), elem)
    ensures OrderFree(p, name, SliceTy(elem))
  {
    NothingLoose(p, name, v, elem);
    forall key | key in Indexed(p, name)
      ensures ItemName(name, key) == Item(name, IndexOf(name, key)) && OrderFree(p, ItemName(name, key), elem)
    {
      var i := ItemOfHeld(p, name, v, elem, key);
    }
  }

  /** What was printed binds to its normal form. */
  lemma BindsToNormal(name: string, v: Val, ty: Ty)
    requires HasType(v, ty) && TyOk(ty)
    ensures Bind(Lift(Flat(name, v, ty)), name, ty) == Normal(v, ty)
  {
    var p := Lift(Flat(name, v, ty));
    forall key | key in p
      ensures Extends(name, key)
    {
      FlatKeys(name, v, ty, key);
    }
    assert Part(p, name) == p;
    RoundTrip(p, name, v, ty);
  }

  /** Bind undoes Unbind exactly on the faithful values. */
  lemma BindUndoesUnbind(name: string, v: Val, ty: Ty)
    requires HasType(v, ty) && TyOk(ty)
    ensures Bind(Lift(Flat(name, v, ty)), name, ty) == v <==> Faithful(v, ty)
  {
    BindsToNormal(name, v, ty);
    NormalIsSame(v, ty);
  }

  lemma OneString(text: string)
    ensures var ty, v := SliceTy(ScalarTy(StringKind)), Slice([Plain(StringVal(text))]);
            HasType(v, ty) && Emits(v, ty) && Normal(v, ty) == v
  {
    var ty, v := SliceTy(ScalarTy(StringKind)), Slice([Plain(StringVal(text))]);
    assert Emits(v.elems[0], ScalarTy(StringKind));
    NormalIsSame(v, ty);
  }

  /** For one, a slice whose last element is an empty slice: it comes back without that element. */
  lemma LosesLastElement(name: string, text: string)
    ensures var ty := SliceTy(SliceTy(ScalarTy(StringKind)));
            var first := Slice([Plain(StringVal(text))]);
            var v := Slice([first, Slice([])]);
            HasType(v, ty) && Bind(Lift(Flat(name, v, ty)), name, ty) == Slice([first]) != v
  {
    var strings := SliceTy(ScalarTy(StringKind));
    var first, none := Slice([Plain(StringVal(text))]), Slice([]);
    var v := Slice([first, none]);
    OneString(text);
    assert HasType(none, strings) && !Emits(none, strings);
    BindsToNormal(name, v, SliceTy(strings));
    assert Kept(v.elems, strings) == 1;
    assert Normal(v, SliceTy(strings)).elems == [first];
  }

  datatype Argument = Argument(name: string, value: Val, ty: Ty)

  /** Action arguments: well-typed, under distinct identifiers. */
  ghost predicate ArgumentsOk(args: seq<Argument>) {
    && (forall i | 0 <= i < |args| :: NameOk(args[i].name) && HasType(args[i].value, args[i].ty) && TyOk(args[i].ty))
    && (forall i, j | 0 <= i < j < |args| :: args[i].name != args[j].name)
  }

  ghost function ArgumentParts(args: seq<Argument>): seq<map<string, string>>
    requires ArgumentsOk(args)
  {
    seq(|args|, i requires 0 <= i < |args| => Flat(args[i].name, args[i].value, args[i].ty))
  }

  lemma OwnerOf(name: string, key: string)
    requires NameOk(name) && Extends(name, key)
    ensures NextKey(key) == name
  {
    assert key == name + key[|name|..];
    NextKeyOfMember(name, key[|name|..]);
  }

  /** Several arguments printed into one map each bind back. */
  lemma SeveralArguments(args: seq<Argument>, i: nat)
    requires ArgumentsOk(args) && i < |args|
    ensures var p := Lift(Union(ArgumentParts(args)));
            && Bind(p, args[i].name, args[i].ty) == Normal(args[i].value, args[i].ty)
            && OrderFree(p, args[i].name, args[i].ty)
  {
    var parts, a := ArgumentParts(args), args[i];
    var p := Lift(Union(parts));
    forall key
      ensures key in Part(p, a.name) <==> key in Lift(parts[i])
      ensures key in Part(p, a.name) ==> Part(p, a.name)[key] == Lift(parts[i])[key]
    {
      if key in parts[i] {
        FlatKeys(a.name, a.value, a.ty, key);
      }
      if Extends(a.name, key) {
        OwnerOf(a.name, key);
        forall j | 0 <= j < |parts| && j != i
          ensures key !in parts[j]
        {
          if key in parts[j] {
            FlatKeys(args[j].name, args[j].value, args[j].ty, key);
            OwnerOf(args[j].name, key);
          }
        }
        OnlyPart(parts, i, key);
      }
    }
    RoundTrip(p, a.name, a.value, a.ty);
  }
}
