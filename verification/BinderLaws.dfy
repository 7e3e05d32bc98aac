/** What binding and printing promise together: binding is local to a name, and it reads back what was
    printed, up to what printing loses. */
module BinderLaws {
  import opened Decimal
  import opened Binder

  // ----- names -----

  lemma ExtendsTransitive(name: string, sub: string, key: string)
    requires Extends(name, sub) && Extends(sub, key)
    ensures Extends(name, key)
  {
    assert key[..|name|] == sub[..|name|] == name;
    if |sub| > |name| {
      assert key[|name|] == sub[|name|];
    }
  }

  lemma FindFirst(s: string, c: char, i: nat)
    requires i < |s| && s[i] == c && forall j | 0 <= j < i :: s[j] != c
    ensures Find(s, c) == i
  {
  }

  lemma ItemTail(name: string, digits: string, rest: string)
    requires AllDigits(digits) && digits != []
    ensures var key := name + "[" + digits + "]" + rest;
            && IsItem(name, key) && Bracketed(name, key) == |digits| + 2
            && key[|name| + 1..|name| + 1 + |digits|] == digits
            && ItemName(name, key) == name + "[" + digits + "]"
  {
    var key := name + "[" + digits + "]" + rest;
    var tail := key[|name|..];
    assert tail == "[" + digits + "]" + rest;
    FindFirst(tail, ']', |digits| + 1);
    assert key[..|name| + 1] == name + "[";
  }

  /** A key that belongs to element i of a slice is recognised as such. */
  lemma ItemKey(name: string, i: nat, key: string)
    requires Extends(Item(name, i), key) && i < TWO_63
    ensures Extends(name, Item(name, i)) && IsItem(name, key)
    ensures IndexOf(name, key) == i && ItemName(name, key) == Item(name, i)
  {
    var item := Item(name, i);
    assert AllDigits(Digits(i)) && Atoi(Digits(i)) == i by {
      DigitsRoundTrip(i);
      IntRoundTrip(i);
    }
    assert key == item + key[|item|..];
    ItemTail(name, Digits(i), key[|item|..]);
    assert item[|name|] == '[';
  }

  lemma {:induction false} NextKeyOfMember(f: string, rest: string)
    requires NameOk(f) && (rest == "" || rest[0] == '.' || rest[0] == '[')
    ensures NextKey(f + rest) == f
  {
    var key := f + rest;
    if f == "" {
      assert key == rest;
    } else {
      assert key[0] == f[0] && key[1..] == f[1..] + rest && f == [f[0]] + f[1..];
      NextKeyOfMember(f[1..], rest);
    }
  }

  lemma MemberKey(name: string, f: string, key: string)
    requires NameOk(f) && Extends(Member(name, f), key)
    ensures Extends(name, Member(name, f)) && Extends(name, key) && name + "." <= key
    ensures NextKey(key[|name| + 1..]) == f
  {
    var m := Member(name, f);
    assert m[|name|] == '.';
    ExtendsTransitive(name, m, key);
    assert key[..|name| + 1] == m[..|name| + 1] == name + ".";
    var rest := key[|m|..];
    assert key[|name| + 1..] == f + rest;
    NextKeyOfMember(f, rest);
  }

  lemma EntryName(name: string, t: string)
    ensures var key := Entry(name, t); IsEntry(name, key) && EntryKey(name, key) == t && Extends(name, key)
  {
    var key := Entry(name, t);
    assert key[..|name| + 1] == name + "[";
  }

  lemma ItemExtends(name: string, key: string)
    requires IsItem(name, key)
    ensures Extends(name, key) && key != name
  {
    assert key[..|name| + 1] == name + "[";
  }

  lemma MemberExtends(name: string, f: string)
    ensures Extends(name, Member(name, f)) && !Extends(Member(name, f), name)
  {
    assert Member(name, f)[|name|] == '.';
  }

  // ----- locality -----

  lemma SubPart(p: Params, q: Params, name: string, sub: string)
    requires Part(p, name) == Part(q, name) && Extends(name, sub)
    ensures Part(p, sub) == Part(q, sub)
  {
    forall key | Extends(sub, key)
      ensures key in p <==> key in q
      ensures key in p ==> p[key] == q[key]
    {
      ExtendsTransitive(name, sub, key);
      assert key in p <==> key in Part(p, name);
      assert key in q <==> key in Part(q, name);
    }
  }

  lemma SameItems(p: Params, q: Params, name: string)
    requires Part(p, name) == Part(q, name)
    ensures Indexed(p, name) == Indexed(q, name) && Loose(p, name) == Loose(q, name)
    ensures forall i: nat :: WithIndex(p, name, i) == WithIndex(q, name, i)
    ensures EntriesOf(p, name) == EntriesOf(q, name)
    ensures forall key | key in EntriesOf(p, name) :: p[key] == q[key]
    ensures LooseTexts(p, name) == LooseTexts(q, name)
  {
    forall key | IsItem(name, key)
      ensures key in p <==> key in q
      ensures key in p ==> p[key] == q[key]
    {
      assert key[|name|] == (name + "[")[|name|];
      assert Extends(name, key);
      assert key in p <==> key in Part(p, name);
      assert key in q <==> key in Part(q, name);
    }
  }

  lemma ItemNameExtends(name: string, key: string)
    requires IsItem(name, key) && IndexOf(name, key) > -1
    ensures Extends(name, ItemName(name, key))
  {
    var item := ItemName(name, key);
    assert key[|name|] == (name + "[")[|name|];
    assert item[..|name|] == key[..|name|] == name;
  }

  lemma LocalItem(p: Params, q: Params, name: string, elem: Ty, i: nat)
    requires WithIndex(p, name, i) == WithIndex(q, name, i)
    requires forall key | key in WithIndex(p, name, i) ::
               Bind(p, ItemName(name, key), elem) == Bind(q, ItemName(name, key), elem)
    ensures BindItem(p, name, elem, i) == BindItem(q, name, elem, i)
  {
    if WithIndex(p, name, i) != {} {
      assert Pick(WithIndex(p, name, i)) in WithIndex(p, name, i);
    }
  }

  lemma LocalSlice(p: Params, q: Params, name: string, elem: Ty)
    requires Length(p, name) == Length(q, name) && LooseTexts(p, name) == LooseTexts(q, name)
    requires forall i: nat :: BindItem(p, name, elem, i) == BindItem(q, name, elem, i)
    ensures BindElems(p, name, elem) == BindElems(q, name, elem)
  {
    assert IndexedValues(p, name, elem) == IndexedValues(q, name, elem);
  }

  lemma LocalEntry(p: Params, q: Params, name: string, key: Kind, val: Kind, s: Scalar)
    requires EntriesOf(p, name) == EntriesOf(q, name) && forall k | k in EntriesOf(p, name) :: p[k] == q[k]
    requires s in BoundKeys(p, name, key)
    ensures s in BoundKeys(q, name, key)
    ensures BindEntry(p, name, key, val, s) == BindEntry(q, name, key, val, s)
  {
    assert Spellings(p, name, key, s) == Spellings(q, name, key, s);
  }

  lemma LocalMap(p: Params, q: Params, name: string, key: Kind, val: Kind)
    requires EntriesOf(p, name) == EntriesOf(q, name) && forall k | k in EntriesOf(p, name) :: p[k] == q[k]
    ensures BindEntries(p, name, key, val) == BindEntries(q, name, key, val)
  {
    forall s | s in BoundKeys(p, name, key)
      ensures BindEntry(p, name, key, val, s) == BindEntry(q, name, key, val, s)
    {
      LocalEntry(p, q, name, key, val, s);
    }
    var a, b := BindEntries(p, name, key, val), BindEntries(q, name, key, val);
    assert a.Keys == BoundKeys(p, name, key) == BoundKeys(q, name, key) == b.Keys;
    assert forall s | s in a :: a[s] == b[s];
  }

  lemma LocalScalar(p: Params, q: Params, name: string, k: Kind)
    requires Part(p, name) == Part(q, name)
    ensures BindScalar(p, name, k) == BindScalar(q, name, k)
  {
    assert name in p <==> name in Part(p, name);
    assert name in q <==> name in Part(q, name);
  }

  /** Binding is local: parameters that agree on the keys a name owns bind it to the same value. */
  lemma {:induction false} BindLocal(p: Params, q: Params, name: string, ty: Ty)
    requires Part(p, name) == Part(q, name)
    ensures Bind(p, name, ty) == Bind(q, name, ty)
    ensures OrderFree(p, name, ty) <==> OrderFree(q, name, ty)
    decreases ty
  {
    match ty
    case ScalarTy(k) =>
      LocalScalar(p, q, name, k);
    case SliceTy(elem) =>
      if !IsBytes(ty) {
        SameItems(p, q, name);
        forall key | key in Indexed(p, name)
          ensures Bind(p, ItemName(name, key), elem) == Bind(q, ItemName(name, key), elem)
          ensures OrderFree(p, ItemName(name, key), elem) <==> OrderFree(q, ItemName(name, key), elem)
        {
          ItemNameExtends(name, key);
          SubPart(p, q, name, ItemName(name, key));
          BindLocal(p, q, ItemName(name, key), elem);
        }
        forall i: nat
          ensures BindItem(p, name, elem, i) == BindItem(q, name, elem, i)
        {
          LocalItem(p, q, name, elem, i);
        }
        LocalSlice(p, q, name, elem);
      }
    case StructTy(fs) =>
      forall i | 0 <= i < |fs|
        ensures Bind(p, Member(name, fs[i].name), fs[i].ty) == Bind(q, Member(name, fs[i].name), fs[i].ty)
        ensures OrderFree(p, Member(name, fs[i].name), fs[i].ty) <==> OrderFree(q, Member(name, fs[i].name), fs[i].ty)
      {
        assert Member(name, fs[i].name)[|name|] == '.';
        SubPart(p, q, name, Member(name, fs[i].name));
        BindLocal(p, q, Member(name, fs[i].name), fs[i].ty);
      }
    case MapTy(key, val) =>
      SameItems(p, q, name);
      LocalMap(p, q, name, key, val);
  }

  /** Without items, entries or members under a name there is no order to speak of. */
  lemma {:induction false} AloneOrderFree(p: Params, name: string, ty: Ty)
    requires forall k | k in p && Extends(name, k) :: k == name
    ensures OrderFree(p, name, ty)
    decreases ty
  {
    match ty
    case ScalarTy(_) =>
    case SliceTy(elem) =>
      NoItems(p, name);
    case StructTy(fs) =>
      forall i | 0 <= i < |fs|
        ensures OrderFree(p, Member(name, fs[i].name), fs[i].ty)
      {
        NoMembers(p, name, fs[i].name);
        AloneOrderFree(p, Member(name, fs[i].name), fs[i].ty);
      }
    case MapTy(key, _) =>
      NoItems(p, name);
  }

  lemma NoItems(p: Params, name: string)
    requires forall k | k in p && Extends(name, k) :: k == name
    ensures Indexed(p, name) == {} && Loose(p, name) == {} && EntriesOf(p, name) == {}
  {
    if k :| k in p && IsItem(name, k) {
      ItemExtends(name, k);
    }
  }

  lemma NoMembers(p: Params, name: string, f: string)
    requires forall k | k in p && Extends(name, k) :: k == name
    ensures forall k | k in p :: !Extends(Member(name, f), k)
  {
    MemberExtends(name, f);
    if k :| k in p && Extends(Member(name, f), k) {
      ExtendsTransitive(name, Member(name, f), k);
    }
  }

  /** A name that owns no parameter is bound to the zero value. */
  lemma {:induction false} BindNothing(p: Params, name: string, ty: Ty)
    requires forall k | k in p :: !Extends(name, k)
    ensures Bind(p, name, ty) == Zero(ty)
    decreases ty
  {
    match ty
    case ScalarTy(_) =>
      assert Extends(name, name);
    case SliceTy(elem) =>
      NoItems(p, name);
    case StructTy(fs) =>
      forall i | 0 <= i < |fs|
        ensures Bind(p, Member(name, fs[i].name), fs[i].ty) == Zero(fs[i].ty)
      {
        NoMembers(p, name, fs[i].name);
        BindNothing(p, Member(name, fs[i].name), fs[i].ty);
      }
    case MapTy(key, val) =>
      NoItems(p, name);
      assert BoundKeys(p, name, key) == {};
  }
}
