/** `to_dict`: folds the raw nested-list parse result into nested dicts.
    An item that is a list of pairs returns `dict(item)` at once; a pair
    item stores its value, normalised when it is itself a pair or a list of
    pairs; any other list item is normalised and stored under the key most
    recently seen; anything else is an error. A two-element object is first
    turned into its single adjacent pair. */
module Normaliser {
  import opened Wrappers
  import opened PyObj

  datatype NormError =
    | UnhandledValue(item: Obj)  // ValueError("Unhandled value ...")
    | Unhashable(key: Obj)       // TypeError: a list used as a dict key
    | UnboundKey                 // UnboundLocalError: no key seen yet

  /** _is_list_pair */
  predicate IsListPair(o: Obj)
  {
    o.List? && |o.elems| == 2
  }

  /** _is_list_of_list_pairs (true of the empty list) */
  predicate IsListOfListPairs(o: Obj)
  {
    o.List? && forall i :: 0 <= i < |o.elems| ==> IsListPair(o.elems[i])
  }

  /** _is_list_pair holds of exactly the two-element lists, and
      _is_list_of_list_pairs of exactly the lists made only of those, the
      empty list included; neither holds of a scalar. */
  lemma PairShapes(o: Obj)
    ensures IsListPair(o) <==> exists a, b :: o == List([a, b])
    ensures IsListOfListPairs(o) <==> o.List? && forall x :: x in o.elems ==> exists a, b :: x == List([a, b])
    ensures IsListOfListPairs(List([])) && !IsListPair(List([]))
  {
    PairShape(o);
    if IsListOfListPairs(o) {
      forall x | x in o.elems ensures exists a, b :: x == List([a, b]) {
        PairShape(x);
      }
    }
    if o.List? && forall x :: x in o.elems ==> exists a, b :: x == List([a, b]) {
      forall i | 0 <= i < |o.elems| ensures IsListPair(o.elems[i]) {
        assert o.elems[i] in o.elems;
        PairShape(o.elems[i]);
      }
    }
  }

  /** One object is a list pair exactly when it is some [a, b]. */
  lemma PairShape(x: Obj)
    ensures IsListPair(x) <==> exists a, b :: x == List([a, b])
  {
    if IsListPair(x) {
      var a, b := x.elems[0], x.elems[1];
      assert x.elems == [a, b];
      assert x == List([a, b]);
    }
    if exists a, b :: x == List([a, b]) {
      var a, b :| x == List([a, b]);
      assert |x.elems| == 2;
    }
  }

  /** itertools-style pairwise: the overlapping adjacent pairs. */
  function Pairwise<T>(xs: seq<T>): (r: seq<(T, T)>)
    ensures |r| == if xs == [] then 0 else |xs| - 1
    ensures forall i :: 0 <= i < |r| ==> r[i] == (xs[i], xs[i + 1])
  {
    if |xs| < 2 then [] else [(xs[0], xs[1])] + Pairwise(xs[1..])
  }

  /** The tuples pairwise yields, as two-element lists. */
  function PairItems(ps: seq<(Obj, Obj)>): (r: seq<Obj>)
    ensures |r| == |ps|
    ensures forall i :: 0 <= i < |ps| ==> r[i] == List([ps[i].0, ps[i].1])
  {
    if ps == [] then [] else [List([ps[0].0, ps[0].1])] + PairItems(ps[1..])
  }

  /** What the for loop iterates over. */
  function Items(obj: Obj): seq<Obj>
    requires obj.List?
  {
    if IsListPair(obj) then PairItems(Pairwise(obj.elems)) else obj.elems
  }

  /** A two-element list is iterated as the one pair it already is. */
  lemma ItemsOfPair(obj: Obj)
    requires IsListPair(obj)
    ensures Items(obj) == [obj]
  {
    assert obj.elems == [obj.elems[0], obj.elems[1]];
  }

  /** The loop runs over the object itself when it has two elements (the
      one tuple pairwise yields), and over its elements otherwise. */
  lemma IteratedItems(obj: Obj)
    requires obj.List?
    ensures Items(obj) == if |obj.elems| == 2 then [obj] else obj.elems
  {
    if IsListPair(obj) { ItemsOfPair(obj); }
  }

  /** Every dict level of a result has unique keys, as a Python dict does. */
  predicate ProperValue(v: Value)
  {
    match v
    case Raw(_) => true
    case Dict(es) => UniqueKeys(es) && forall i :: 0 <= i < |es| ==> ProperValue(es[i].1)
  }

  /** The entries of a dict whose every level has unique keys. */
  predicate ProperEntries(es: seq<(Obj, Value)>)
  {
    UniqueKeys(es) && forall i :: 0 <= i < |es| ==> ProperValue(es[i].1)
  }

  /** out[k] = v keeps every level of out a proper dict when v is one. */
  lemma {:induction false} StoreProper(d: seq<(Obj, Value)>, k: Obj, v: Value)
    requires ProperEntries(d) && ProperValue(v)
    ensures ProperEntries(Store(d, k, v))
  {
    StoreUnique(d, k, v);
    if d != [] && d[0].0 != k {
      assert ProperEntries(d[1..]) by {
        assert forall i :: 0 <= i < |d[1..]| ==> d[1..][i] == d[i + 1];
      }
      StoreProper(d[1..], k, v);
      var r := Store(d, k, v);
      assert r == [d[0]] + Store(d[1..], k, v);
      assert forall i :: 1 <= i < |r| ==> r[i] == Store(d[1..], k, v)[i - 1];
    }
  }

  /** dict(pairs) on top of acc: each pair [k, v] stores v verbatim under k. */
  function DictInto(acc: seq<(Obj, Value)>, pairs: seq<Obj>): (r: Result<seq<(Obj, Value)>, NormError>)
    requires forall i :: 0 <= i < |pairs| ==> IsListPair(pairs[i])
    ensures r.Success? <==> forall i :: 0 <= i < |pairs| ==> IsListPair(pairs[i]) && pairs[i].elems[0].Hashable()
    ensures r.Failure? ==> r.error.Unhashable?
    ensures r.Success? && UniqueKeys(acc) ==> UniqueKeys(r.value)
    ensures r.Success? && ProperEntries(acc) ==> ProperEntries(r.value)
    decreases |pairs|
  {
    if pairs == [] then Success(acc)
    else
      assert IsListPair(pairs[0]);
      var k := pairs[0].elems[0];
      if !k.Hashable() then Failure(Unhashable(k))
      else
        var acc' := Store(acc, k, Raw(pairs[0].elems[1]));
        assert UniqueKeys(acc) ==> UniqueKeys(acc') by {
          if UniqueKeys(acc) { StoreUnique(acc, k, Raw(pairs[0].elems[1])); }
        }
        assert ProperEntries(acc) ==> ProperEntries(acc') by {
          if ProperEntries(acc) { StoreProper(acc, k, Raw(pairs[0].elems[1])); }
        }
        assert forall i :: 1 <= i < |pairs| ==> pairs[i] == pairs[1..][i - 1];
        DictInto(acc', pairs[1..])
  }

  /** to_dict as a function of its argument: a scalar comes back as it is,
      anything else that succeeds becomes a dict, and every dict level of
      the result has unique keys. */
  function ToDictSpec(obj: Obj): (r: Result<Value, NormError>)
    ensures obj.IsScalar() ==> r == Success(Raw(obj))
    ensures r.Success? ==> (r.value.Raw? <==> obj.IsScalar())
    ensures r.Success? ==> ProperValue(r.value)
    decreases obj, 1
  {
    if obj.IsScalar() then Success(Raw(obj))
    else Loop(obj, 0, [], None)
  }

  /** The for loop of to_dict from the i-th item on, given the dict `out`
      built so far and the key of the last pair item. */
  function Loop(obj: Obj, i: nat, out: seq<(Obj, Value)>, key: Option<Obj>): (r: Result<Value, NormError>)
    requires obj.List? && i <= |Items(obj)|
    ensures r.Success? ==> r.value.Dict?
    ensures r.Success? && ProperEntries(out) ==> ProperValue(r.value)
    decreases obj, 0, |Items(obj)| - i
  {
    var items := Items(obj);
    if i == |items| then Success(Dict(out))
    else
      var item := items[i];
      assert IsListPair(obj) ==> item == obj by { if IsListPair(obj) { ItemsOfPair(obj); } }
      if IsListOfListPairs(item) then
        assert ProperEntries([]);
        var d :- DictInto([], item.elems);
        Success(Dict(d))
      else if IsListPair(item) then
        var k, v := item.elems[0], item.elems[1];
        var stored :- if IsListOfListPairs(v) || IsListPair(v) then ToDictSpec(v) else Success(Raw(v));
        if !k.Hashable() then Failure(Unhashable(k))
        else
          assert ProperEntries(out) ==> ProperEntries(Store(out, k, stored)) by {
            if ProperEntries(out) { StoreProper(out, k, stored); }
          }
          Loop(obj, i + 1, Store(out, k, stored), Some(k))
      else if item.List? then
        var stored :- ToDictSpec(item);
        match key
        case None => Failure(UnboundKey)
        case Some(k) =>
          assert ProperEntries(out) ==> ProperEntries(Store(out, k, stored)) by {
            if ProperEntries(out) { StoreProper(out, k, stored); }
          }
          Loop(obj, i + 1, Store(out, k, stored), key)
      else Failure(UnhandledValue(item))
  }

  /** The value of the last pair whose key is k. */
  function LastValue(pairs: seq<Obj>, k: Obj): Option<Obj>
    requires forall i :: 0 <= i < |pairs| ==> IsListPair(pairs[i])
  {
    if pairs == [] then None
    else
      assert IsListPair(pairs[0]);
      match LastValue(pairs[1..], k)
      case Some(v) => Some(v)
      case None => if pairs[0].elems[0] == k then Some(pairs[0].elems[1]) else None
  }

  /** dict(pairs): the last write of a key wins; keys no pair writes keep
      what acc had. */
  lemma {:induction false} DictIntoLastWins(acc: seq<(Obj, Value)>, pairs: seq<Obj>, k: Obj)
    requires forall i :: 0 <= i < |pairs| ==> IsListPair(pairs[i])
    requires DictInto(acc, pairs).Success?
    decreases |pairs|
    ensures Lookup(DictInto(acc, pairs).value, k)
         == match LastValue(pairs, k)
            case Some(v) => Some(Raw(v))
            case None => Lookup(acc, k)
  {
    if pairs != [] {
      var k0, v0 := pairs[0].elems[0], pairs[0].elems[1];
      DictIntoLastWins(Store(acc, k0, Raw(v0)), pairs[1..], k);
      StoreLookup(acc, k0, Raw(v0), k);
    }
  }

  lemma LoopListOfPairsItem(obj: Obj, i: nat, out: seq<(Obj, Value)>, key: Option<Obj>)
    requires obj.List? && i < |Items(obj)| && IsListOfListPairs(Items(obj)[i])
    ensures Loop(obj, i, out, key) == match DictInto([], Items(obj)[i].elems)
                                     case Success(d) => Success(Dict(d))
                                     case Failure(e) => Failure(e)
  {
  }

  /** A pair item [k, v] stores to_dict(v) under k when v is a pair or a
      list of pairs and v itself otherwise, overwriting an earlier k. */
  lemma LoopPairItem(obj: Obj, i: nat, out: seq<(Obj, Value)>, key: Option<Obj>)
    requires obj.List? && i < |Items(obj)|
    requires var item := Items(obj)[i]; IsListPair(item) && !IsListOfListPairs(item)
    requires Items(obj)[i].elems[0].Hashable()
    ensures var k, v := Items(obj)[i].elems[0], Items(obj)[i].elems[1];
      if IsListOfListPairs(v) || IsListPair(v) then
        match ToDictSpec(v)
        case Failure(e) => Loop(obj, i, out, key) == Failure(e)
        case Success(d) => Loop(obj, i, out, key) == Loop(obj, i + 1, Store(out, k, d), Some(k))
      else Loop(obj, i, out, key) == Loop(obj, i + 1, Store(out, k, Raw(v)), Some(k))
  {
  }

  /** A list item that is neither a pair nor a list of pairs is normalised
      and stored under the key of the latest pair item; before any pair item
      there is no key. */
  lemma LoopOtherListItem(obj: Obj, i: nat, out: seq<(Obj, Value)>, key: Option<Obj>)
    requires obj.List? && i < |Items(obj)|
    requires var item := Items(obj)[i]; item.List? && !IsListPair(item) && !IsListOfListPairs(item)
    requires ToDictSpec(Items(obj)[i]).Success?
    ensures key.None? ==> Loop(obj, i, out, key) == Failure(UnboundKey)
    ensures key.Some? ==>
              Loop(obj, i, out, key)
              == Loop(obj, i + 1, Store(out, key.value, ToDictSpec(Items(obj)[i]).value), key)
  {
  }

  /** A scalar item is an error. */
  lemma LoopScalarItem(obj: Obj, i: nat, out: seq<(Obj, Value)>, key: Option<Obj>)
    requires obj.List? && i < |Items(obj)| && Items(obj)[i].IsScalar()
    ensures Loop(obj, i, out, key) == Failure(UnhandledValue(Items(obj)[i]))
  {
  }

  /** A flat [k, v] is regrouped into the one pair (k, v), so it normalises
      exactly like the explicit [[k, v]]. */
  lemma FlatPairAsNested(k: Obj, v: Obj)
    requires k.IsScalar()
    ensures ToDictSpec(List([k, v])) == ToDictSpec(List([List([k, v])]))
  {
    var flat, nested := List([k, v]), List([List([k, v])]);
    ItemsOfPair(flat);
    assert Items(nested) == [flat];
    var stored := if IsListOfListPairs(v) || IsListPair(v) then ToDictSpec(v) else Success(Raw(v));
    assert !IsListOfListPairs(flat);
    if stored.Success? {
      var out := Store([], k, stored.value);
      assert Loop(flat, 1, out, Some(k)) == Success(Dict(out));
      assert Loop(nested, 1, out, Some(k)) == Success(Dict(out));
    }
  }

  /** Regrouping happens only at length two: a flat [k1, v1, k2, v2] is not
      read as two pairs but fails on its first element. */
  lemma FlatFourNotRegrouped(k1: Obj, v1: Obj, k2: Obj, v2: Obj)
    requires k1.IsScalar()
    ensures ToDictSpec(List([k1, v1, k2, v2])) == Failure(UnhandledValue(k1))
  {
  }

  /** A parse result made only of items [key, scalar]. */
  predicate FlatItems(items: seq<Obj>)
  {
    forall i :: 0 <= i < |items| ==>
      IsListPair(items[i]) && items[i].elems[0].Str? && items[i].elems[1].IsScalar()
  }

  /** A document of plain items, of any length, normalises to dict(items):
      each key maps to the value of its last item. */
  lemma FlatItemsNormalise(items: seq<Obj>)
    requires FlatItems(items)
    ensures DictInto([], items).Success?
    ensures ToDictSpec(List(items)) == Success(Dict(DictInto([], items).value))
  {
    var obj := List(items);
    if |items| == 2 {
      ItemsOfPair(obj);
    } else {
      LoopFlat(obj, 0, []);
      assert items[0..] == items;
    }
  }

  lemma {:induction false} LoopFlat(obj: Obj, i: nat, out: seq<(Obj, Value)>)
    requires obj.List? && FlatItems(obj.elems) && |obj.elems| != 2 && i <= |obj.elems|
    ensures DictInto(out, obj.elems[i..]).Success?
    ensures forall key :: Loop(obj, i, out, key) == Success(Dict(DictInto(out, obj.elems[i..]).value))
    decreases |obj.elems| - i
  {
    var items := obj.elems;
    assert Items(obj) == items;
    if i < |items| {
      var k, v := items[i].elems[0], items[i].elems[1];
      var out' := Store(out, k, Raw(v));
      assert !IsListOfListPairs(items[i]) by { assert !IsListPair(items[i].elems[0]); }
      LoopFlat(obj, i + 1, out');
      assert items[i..][1..] == items[i + 1..];
      assert DictInto(out, items[i..]) == DictInto(out', items[i + 1..]);
      forall key ensures Loop(obj, i, out, key) == Loop(obj, i + 1, out', Some(k)) {
        LoopPairItem(obj, i, out, key);
      }
    }
  }

  /** outer { inner { a = 1 } } normalises to {outer: {inner: {a: 1}}}. */
  lemma NestedBlocksExample()
    ensures var a := List([Str("a"), Int(1)]);
            var inner := List([Str("inner"), List([a])]);
            var outer := List([Str("outer"), List([inner])]);
            ToDictSpec(List([outer]))
            == Success(Dict([(Str("outer"), Dict([(Str("inner"), Dict([(Str("a"), Raw(Int(1)))]))]))]))
  {
    var a := List([Str("a"), Int(1)]);
    var inner := List([Str("inner"), List([a])]);
    var outer := List([Str("outer"), List([inner])]);
    assert ToDictSpec(List([a])) == Success(Dict([(Str("a"), Raw(Int(1)))])) by {
      assert Loop(List([a]), 1, [(Str("a"), Raw(Int(1)))], Some(Str("a")))
          == Success(Dict([(Str("a"), Raw(Int(1)))]));
    }
    var da := Dict([(Str("a"), Raw(Int(1)))]);
    assert ToDictSpec(List([inner])) == Success(Dict([(Str("inner"), da)])) by {
      assert !IsListOfListPairs(inner) by { assert !IsListPair(inner.elems[0]); }
      assert Loop(List([inner]), 1, [(Str("inner"), da)], Some(Str("inner")))
          == Success(Dict([(Str("inner"), da)]));
    }
    var di := Dict([(Str("inner"), da)]);
    assert !IsListOfListPairs(outer) by { assert !IsListPair(outer.elems[0]); }
    assert Loop(List([outer]), 1, [(Str("outer"), di)], Some(Str("outer")))
        == Success(Dict([(Str("outer"), di)]));
  }

  /** A block with exactly two nested blocks is a pair of pairs, so it
      comes back as dict(body) with the nested bodies left as raw lists:
      outer { a { x = 1 } b { y = 2 } } gives {a: [["x", 1]], b: [["y", 2]]}
      under outer. */
  lemma TwoNestedBlocksLeftRaw()
    ensures var ba := List([List([Str("x"), Int(1)])]);
            var bb := List([List([Str("y"), Int(2)])]);
            var outer := List([Str("outer"), List([List([Str("a"), ba]), List([Str("b"), bb])])]);
            ToDictSpec(List([outer]))
            == Success(Dict([(Str("outer"), Dict([(Str("a"), Raw(ba)), (Str("b"), Raw(bb))]))]))
  {
    var ba := List([List([Str("x"), Int(1)])]);
    var bb := List([List([Str("y"), Int(2)])]);
    var body := List([List([Str("a"), ba]), List([Str("b"), bb])]);
    var outer := List([Str("outer"), body]);
    var d := Dict([(Str("a"), Raw(ba)), (Str("b"), Raw(bb))]);
    assert ToDictSpec(body) == Success(d) by {
      ItemsOfPair(body);
      assert IsListOfListPairs(body);
      var e1 := [(Str("a"), Raw(ba))];
      assert Store(e1, Str("b"), Raw(bb)) == [e1[0]] + Store([], Str("b"), Raw(bb)) == d.entries;
      assert body.elems[1..][1..] == [];
      assert DictInto(e1, body.elems[1..]) == Success(d.entries);
      assert DictInto([], body.elems) == Success(d.entries);
    }
    assert !IsListOfListPairs(outer) by { assert !IsListPair(outer.elems[0]); }
    assert Loop(List([outer]), 1, [(Str("outer"), d)], Some(Str("outer")))
        == Success(Dict([(Str("outer"), d)]));
  }

  /** A non-pair list item before any pair item has no key to go under. */
  lemma NoKeyYetExample()
    ensures ToDictSpec(List([List([List([])])])) == Failure(UnboundKey)
  {
    var empty := List([]);
    assert ToDictSpec(List([empty])) == Success(Dict([])) by {
      assert IsListOfListPairs(empty);
    }
    assert !IsListOfListPairs(List([empty])) by { assert !IsListPair(List([empty]).elems[0]); }
  }

  /** The key carries over: the non-pair item [[]] normalises to {} and
      overwrites k, which keeps its first position. */
  lemma KeyCarriedOverExample()
    ensures var obj := List([List([Str("k"), Int(1)]), List([List([])]), List([Str("j"), Int(2)])]);
            ToDictSpec(obj) == Success(Dict([(Str("k"), Dict([])), (Str("j"), Raw(Int(2)))]))
  {
    var empty := List([]);
    var p1, mid, p2 := List([Str("k"), Int(1)]), List([empty]), List([Str("j"), Int(2)]);
    var obj := List([p1, mid, p2]);
    assert !IsListOfListPairs(p1) by { assert !IsListPair(p1.elems[0]); }
    assert !IsListOfListPairs(p2) by { assert !IsListPair(p2.elems[0]); }
    assert !IsListOfListPairs(mid) by { assert !IsListPair(mid.elems[0]); }
    assert ToDictSpec(mid) == Success(Dict([])) by {
      assert IsListOfListPairs(empty);
    }
    var o1 := [(Str("k"), Raw(Int(1)))];
    var o2 := [(Str("k"), Dict([]))];
    var o3 := [(Str("k"), Dict([])), (Str("j"), Raw(Int(2)))];
    assert Items(obj) == [p1, mid, p2];
    assert Loop(obj, 3, o3, Some(Str("j"))) == Success(Dict(o3));
    assert Store(o2, Str("j"), Raw(Int(2))) == [o2[0]] + Store([], Str("j"), Raw(Int(2))) == o3;
    LoopPairItem(obj, 2, o2, Some(Str("k")));
    assert Store(o1, Str("k"), Dict([])) == o2;
    LoopOtherListItem(obj, 1, o1, Some(Str("k")));
    LoopPairItem(obj, 0, [], None);
  }

  /** to_dict, with its loop, its early return and its recursion. */
  method ToDict(obj: Obj) returns (r: Result<Value, NormError>)
    ensures r == ToDictSpec(obj)
    decreases obj
  {
    if obj.IsScalar() {
      return Success(Raw(obj));
    }
    var items := obj.elems;
    if IsListPair(obj) {
      items := PairItems(Pairwise(obj.elems));
      ItemsOfPair(obj);
    }
    var out: seq<(Obj, Value)> := [];
    var key: Option<Obj> := None;
    for i := 0 to |items|
      invariant items == Items(obj)
      invariant Loop(obj, 0, [], None) == Loop(obj, i, out, key)
    {
      var item := items[i];
      if IsListOfListPairs(item) {
        var d := DictInto([], item.elems);
        if d.Failure? {
          return Failure(d.error);
        }
        return Success(Dict(d.value));
      } else if IsListPair(item) {
        var k, v := item.elems[0], item.elems[1];
        key := Some(k);
        var stored := Raw(v);
        if IsListOfListPairs(v) || IsListPair(v) {
          var sub := ToDict(v);
          if sub.Failure? {
            return Failure(sub.error);
          }
          stored := sub.value;
        }
        if !k.Hashable() {
          return Failure(Unhashable(k));
        }
        out := Store(out, k, stored);
      } else if item.List? {
        var sub := ToDict(item);
        if sub.Failure? {
          return Failure(sub.error);
        }
        if key.None? {
          return Failure(UnboundKey);
        }
        out := Store(out, key.value, sub.value);
      } else {
        return Failure(UnhandledValue(item));
      }
    }
    return Success(Dict(out));
  }
}
