/** The Python values that flow from the grammar into `to_dict`, and an
    insertion-ordered dict with Python's assignment semantics. */
module PyObj {
  import opened Wrappers

  /** A raw parse result: str, int, float, bool, or a list of them. Floats
      are kept as the lexeme the grammar matched. */
  datatype Obj =
    | Bool(b: bool)
    | Int(i: int)
    | Real(lexeme: string)
    | Str(s: string)
    | List(elems: seq<Obj>)
  {
    /** isinstance(obj, (str, bytes, int, float, bool)) */
    predicate IsScalar() { !List? }
    /** Lists cannot be dict keys. */
    predicate Hashable() { !List? }
  }

  /** What `to_dict` returns: an input value passed through, or a dict. */
  datatype Value = Raw(obj: Obj) | Dict(entries: seq<(Obj, Value)>)

  function Keys<V>(d: seq<(Obj, V)>): (ks: seq<Obj>)
    ensures |ks| == |d| && forall i :: 0 <= i < |d| ==> ks[i] == d[i].0
  {
    if d == [] then [] else [d[0].0] + Keys(d[1..])
  }

  /** No key occurs twice: the shape of every Python dict. */
  predicate UniqueKeys<V>(d: seq<(Obj, V)>)
  {
    forall i, j :: 0 <= i < j < |d| ==> d[i].0 != d[j].0
  }

  /** d[k], or None when k is absent. */
  function Lookup<V>(d: seq<(Obj, V)>, k: Obj): (r: Option<V>)
    ensures r.None? <==> k !in Keys(d)
  {
    if d == [] then None
    else if d[0].0 == k then Some(d[0].1)
    else Lookup(d[1..], k)
  }

  /** d[k] = v: overwrite in place when k is present (it keeps its first
      insertion position), append otherwise. */
  function Store<V>(d: seq<(Obj, V)>, k: Obj, v: V): (r: seq<(Obj, V)>)
    ensures Keys(r) == if k in Keys(d) then Keys(d) else Keys(d) + [k]
  {
    if d == [] then [(k, v)]
    else if d[0].0 == k then [(k, v)] + d[1..]
    else
      var r := [d[0]] + Store(d[1..], k, v);
      assert Keys(r) == [d[0].0] + Keys(Store(d[1..], k, v));
      assert Keys(d) == [d[0].0] + Keys(d[1..]);
      r
  }

  /** After d[k] = v, d[k] is v and every other key reads as before. */
  lemma {:induction false} StoreLookup<V>(d: seq<(Obj, V)>, k: Obj, v: V, k': Obj)
    ensures Lookup(Store(d, k, v), k') == if k' == k then Some(v) else Lookup(d, k')
  {
    if d != [] && d[0].0 != k {
      StoreLookup(d[1..], k, v, k');
    }
  }

  /** d[k] = v keeps the keys unique. */
  lemma {:induction false} StoreUnique<V>(d: seq<(Obj, V)>, k: Obj, v: V)
    requires UniqueKeys(d)
    ensures UniqueKeys(Store(d, k, v))
  {
    var r := Store(d, k, v);
    var ks := Keys(r);
    assert forall i :: 0 <= i < |r| ==> r[i].0 == ks[i];
    if k in Keys(d) {
      assert forall i, j :: 0 <= i < j < |r| ==> r[i].0 == Keys(d)[i] && r[j].0 == Keys(d)[j];
    } else {
      assert forall i :: 0 <= i < |d| ==> r[i].0 == Keys(d)[i] != k;
    }
  }
}
