/**
 * The JavaScript values the reef object helpers move around, and the objects they write to.
 */
module ReefJson {
  import ReefNumber

  /**
   * A JavaScript value: the primitives, arrays (their elements and their named properties),
   * and other objects with their own keys.
   */
  datatype Json =
    | Undefined
    | Null
    | Bool(b: bool)
    | Num(n: int)
    | Str(s: string)
    | Arr(items: seq<Json>, props: map<string, Json>)
    | Obj(fields: map<string, Json>)

  /** `target[key]`: a missing key reads as `undefined`. */
  function Get(t: map<string, Json>, key: string): (v: Json)
    ensures key in t ==> v == t[key]
    ensures key !in t ==> v == Undefined
  {
    if key in t then t[key] else Undefined
  }

  /** JavaScript truthiness: `undefined`, `null`, `false`, `0` and `''` are falsy. */
  predicate Truthy(v: Json)
  {
    match v
    case Undefined => false
    case Null => false
    case Bool(b) => b
    case Num(n) => n != 0
    case Str(s) => s != ""
    case Arr(_, _) => true
    case Obj(_) => true
  }

  /** `typeof v === 'object'`: `null`, arrays and objects. */
  predicate IsObjectType(v: Json)
  {
    v.Null? || v.Arr? || v.Obj?
  }

  /** `2^32 - 1`: one more than the largest array index. */
  const MaxArrayLength: nat := 4294967295

  /** A key that names an array element: a decimal numeral below `2^32 - 1`. */
  predicate IsIndexKey(k: string)
  {
    ReefNumber.IsNumeral(k) && ReefNumber.ParseDecimal(k) < MaxArrayLength
  }

  /** The element an index key names. */
  function IndexOf(k: string): nat
    requires IsIndexKey(k)
  {
    ReefNumber.ParseDecimal(k)
  }

  /** `String(i)` of an index is an index key naming `i`, and every index key is one. */
  lemma IndexKeyOf(i: nat)
    requires i < MaxArrayLength
    ensures IsIndexKey(ReefNumber.NatToString(i)) && IndexOf(ReefNumber.NatToString(i)) == i
  {
    ReefNumber.NatToStringRoundTrip(i);
  }

  lemma IndexKeyRoundTrip(k: string)
    requires IsIndexKey(k)
    ensures ReefNumber.NatToString(IndexOf(k)) == k
  {
    ReefNumber.NumeralRoundTrip(k);
  }

  /** Two index keys naming the same element are the same key. */
  lemma IndexKeysDistinct(k: string, k': string)
    requires IsIndexKey(k) && IsIndexKey(k') && k != k'
    ensures IndexOf(k) != IndexOf(k')
  {
    IndexKeyRoundTrip(k);
    IndexKeyRoundTrip(k');
  }

  /** The element at `i`; a hole or a position past the end reads as `undefined`. */
  function ItemAt(items: seq<Json>, i: nat): Json
  {
    if i < |items| then items[i] else Undefined
  }

  /** `a[k]` on an array: the element for an index key, else the named property. */
  function ArrGet(a: Json, k: string): Json
    requires a.Arr?
  {
    if IsIndexKey(k) then ItemAt(a.items, IndexOf(k)) else Get(a.props, k)
  }

  /** `n` holes, each reading as `undefined`. */
  function Holes(n: nat): (h: seq<Json>)
    ensures |h| == n && forall i :: 0 <= i < n ==> h[i] == Undefined
  {
    seq(n, _ => Undefined)
  }

  /** `a[k] = v` on an array: an index past the end grows the array, leaving holes before it. */
  function ArrSet(a: Json, k: string, v: Json): Json
    requires a.Arr?
  {
    if IsIndexKey(k) then
      var i := IndexOf(k);
      Arr(if i < |a.items| then a.items[i := v] else a.items + Holes(i - |a.items|) + [v], a.props)
    else Arr(a.items, a.props[k := v])
  }

  /** After `a[k] = v`, `a[k]` reads `v`, every other key reads as before, and no element is lost. */
  lemma ArrSetReads(a: Json, k: string, v: Json)
    requires a.Arr?
    ensures var r := ArrSet(a, k, v);
            && r.Arr?
            && |r.items| >= |a.items|
            && ArrGet(r, k) == v
            && forall k' :: k' != k ==> ArrGet(r, k') == ArrGet(a, k')
  {
    var r := ArrSet(a, k, v);
    forall k' | k' != k
      ensures ArrGet(r, k') == ArrGet(a, k')
    {
      if IsIndexKey(k) && IsIndexKey(k') {
        IndexKeysDistinct(k, k');
      }
    }
  }

  /** The least `m` from `n` on above every index in `s`: an array's length after writes. */
  ghost function EndOf(n: nat, s: set<nat>): (m: nat)
    ensures n <= m && forall i :: i in s ==> i < m
    ensures m == n || m - 1 in s
    decreases s
  {
    if s == {} then n
    else
      var i :| i in s;
      var r := EndOf(n, s - {i});
      assert forall j :: j in s ==> j == i || j in s - {i};
      if i + 1 > r then i + 1 else r
  }

  /** The bounds that `EndOf` meets determine it. */
  lemma EndOfUnique(n: nat, s: set<nat>, m: nat)
    requires n <= m && forall i :: i in s ==> i < m
    requires m == n || m - 1 in s
    ensures EndOf(n, s) == m
  {
  }

  /** One more index reaches past the old end only when it lies at or beyond it. */
  lemma EndOfAdd(n: nat, s: set<nat>, j: nat)
    ensures EndOf(n, s + {j}) == if j + 1 > EndOf(n, s) then j + 1 else EndOf(n, s)
  {
    var e := EndOf(n, s);
    EndOfUnique(n, s + {j}, if j + 1 > e then j + 1 else e);
  }

  /** The elements that the index keys among `keys` name. */
  ghost function IndicesOf(keys: set<string>): set<nat>
  {
    set k | k in keys && IsIndexKey(k) :: IndexOf(k)
  }

  /** Whether element `i` is named by one of `keys`: `String(i)` is among them. */
  predicate NamedIn(i: nat, keys: set<string>)
  {
    i < MaxArrayLength && ReefNumber.NatToString(i) in keys
  }

  lemma IndicesOfNamed(keys: set<string>, i: nat)
    ensures i in IndicesOf(keys) <==> NamedIn(i, keys)
  {
    if i in IndicesOf(keys) {
      var k :| k in keys && IsIndexKey(k) && IndexOf(k) == i;
      IndexKeyRoundTrip(k);
    }
    if NamedIn(i, keys) {
      IndexKeyOf(i);
    }
  }

  /**
   * `a[k] = w[k]` for every key of `w`, on the array `a`. Distinct keys touch distinct
   * elements or properties, so the order of the writes does not matter.
   */
  ghost function ArrWrite(a: Json, w: map<string, Json>): Json
    requires a.Arr?
  {
    var len := EndOf(|a.items|, IndicesOf(w.Keys));
    Arr(seq(len, i requires 0 <= i < len =>
              if NamedIn(i, w.Keys) then w[ReefNumber.NatToString(i)] else ItemAt(a.items, i)),
        map k | k in a.props.Keys + (set k | k in w && !IsIndexKey(k)) ::
              if k in w && !IsIndexKey(k) then w[k] else a.props[k])
  }

  /** Writing nothing leaves the array as it is. */
  lemma ArrWriteNone(a: Json)
    requires a.Arr?
    ensures ArrWrite(a, map[]) == a
  {
    assert IndicesOf({}) == {};
    var r := ArrWrite(a, map[]);
    assert r.items == a.items;
    assert r.props == a.props;
  }

  /** Element `i` after the writes: the written value when a key named it, else as it was. */
  lemma ArrWriteAt(a: Json, w: map<string, Json>, i: nat)
    requires a.Arr?
    ensures ItemAt(ArrWrite(a, w).items, i) ==
            if NamedIn(i, w.Keys) then w[ReefNumber.NatToString(i)] else ItemAt(a.items, i)
  {
    IndicesOfNamed(w.Keys, i);
  }

  /**
   * After the writes each key of `w` reads what was written, every other key reads as
   * before, and no element is lost.
   */
  lemma ArrWriteReads(a: Json, w: map<string, Json>)
    requires a.Arr?
    ensures |ArrWrite(a, w).items| >= |a.items|
    ensures forall k :: ArrGet(ArrWrite(a, w), k) == if k in w then w[k] else ArrGet(a, k)
  {
    forall k
      ensures ArrGet(ArrWrite(a, w), k) == if k in w then w[k] else ArrGet(a, k)
    {
      if IsIndexKey(k) {
        ArrWriteAt(a, w, IndexOf(k));
        IndexKeyRoundTrip(k);
      }
    }
  }

  /** Adding a key adds the element it names, if it names one. */
  lemma IndicesOfAdd(keys: set<string>, key: string)
    ensures IsIndexKey(key) ==> IndicesOf(keys + {key}) == IndicesOf(keys) + {IndexOf(key)}
    ensures !IsIndexKey(key) ==> IndicesOf(keys + {key}) == IndicesOf(keys)
  {
  }

  /** The writes extend the array just far enough to hold the highest element written. */
  lemma ArrWriteLength(a: Json, w: map<string, Json>)
    requires a.Arr?
    ensures |ArrWrite(a, w).items| == EndOf(|a.items|, IndicesOf(w.Keys))
  {
  }

  /** `a[k] = v` for an index key: element `i` reads `v` where `k` names it, else as before. */
  lemma ArrSetAt(b: Json, key: string, v: Json, i: nat)
    requires b.Arr? && IsIndexKey(key)
    ensures var j := IndexOf(key);
            && |ArrSet(b, key, v).items| == (if j + 1 > |b.items| then j + 1 else |b.items|)
            && ItemAt(ArrSet(b, key, v).items, i) == if i == j then v else ItemAt(b.items, i)
  {
  }

  /** `a[key] = v` after the writes reaches exactly as far as the writes with `key` added. */
  lemma ArrWriteStepLength(a: Json, w: map<string, Json>, key: string, v: Json)
    requires a.Arr? && key !in w && IsIndexKey(key)
    ensures |ArrSet(ArrWrite(a, w), key, v).items| == |ArrWrite(a, w[key := v]).items|
  {
    assert w[key := v].Keys == w.Keys + {key};
    IndicesOfAdd(w.Keys, key);
    ArrWriteLength(a, w);
    ArrWriteLength(a, w[key := v]);
    ArrSetAt(ArrWrite(a, w), key, v, 0);
    EndOfAdd(|a.items|, IndicesOf(w.Keys), IndexOf(key));
  }

  /** One more write of an index key not written yet is `a[key] = v` after the others. */
  lemma ArrWriteStepItems(a: Json, w: map<string, Json>, key: string, v: Json)
    requires a.Arr? && key !in w && IsIndexKey(key)
    ensures ArrSet(ArrWrite(a, w), key, v).items == ArrWrite(a, w[key := v]).items
  {
    var q := ArrWrite(a, w[key := v]).items;
    var r := ArrSet(ArrWrite(a, w), key, v).items;
    ArrWriteStepLength(a, w, key, v);
    forall i | 0 <= i < |r|
      ensures q[i] == r[i]
    {
      ArrWriteStepAt(a, w, key, v, i);
    }
  }

  /** Element `i` agrees between `a[key] = v` after the writes and the writes with `key` added. */
  lemma ArrWriteStepAt(a: Json, w: map<string, Json>, key: string, v: Json, i: nat)
    requires a.Arr? && key !in w && IsIndexKey(key)
    ensures ItemAt(ArrSet(ArrWrite(a, w), key, v).items, i) == ItemAt(ArrWrite(a, w[key := v]).items, i)
  {
    ArrSetAt(ArrWrite(a, w), key, v, i);
    ArrWriteAt(a, w, i);
    ArrWriteAt(a, w[key := v], i);
    IndexKeyRoundTrip(key);
    if i != IndexOf(key) && i < MaxArrayLength {
      IndexKeyOf(i);
      IndexKeysDistinct(ReefNumber.NatToString(i), key);
    }
  }

  /** One more write of a key naming no element leaves the elements as they were. */
  lemma ArrWriteStepOther(a: Json, w: map<string, Json>, key: string, v: Json)
    requires a.Arr? && !IsIndexKey(key)
    ensures ArrWrite(a, w[key := v]).items == ArrWrite(a, w).items
  {
    var p := ArrWrite(a, w).items;
    var q := ArrWrite(a, w[key := v]).items;
    assert w[key := v].Keys == w.Keys + {key};
    IndicesOfAdd(w.Keys, key);
    ArrWriteLength(a, w);
    ArrWriteLength(a, w[key := v]);
    forall i | 0 <= i < |p|
      ensures q[i] == p[i]
    {
      ArrWriteAt(a, w, i);
      ArrWriteAt(a, w[key := v], i);
      if i < MaxArrayLength && ReefNumber.NatToString(i) == key {
        IndexKeyOf(i);
      }
      assert ItemAt(q, i) == ItemAt(p, i);
    }
  }

  /** The named properties after the writes: those of `w` that name no element, over the old ones. */
  lemma ArrWriteProps(a: Json, w: map<string, Json>, key: string, v: Json)
    requires a.Arr? && key !in w
    ensures IsIndexKey(key) ==> ArrWrite(a, w[key := v]).props == ArrWrite(a, w).props
    ensures !IsIndexKey(key) ==> ArrWrite(a, w[key := v]).props == ArrWrite(a, w).props[key := v]
  {
    if IsIndexKey(key) {
      assert (set k | k in w[key := v] && !IsIndexKey(k)) == (set k | k in w && !IsIndexKey(k));
    } else {
      assert (set k | k in w[key := v] && !IsIndexKey(k)) == (set k | k in w && !IsIndexKey(k)) + {key};
    }
  }

  /** Writing the keys of `w` and then `a[key] = v` is writing `w` with `key` added. */
  lemma ArrWriteStep(a: Json, w: map<string, Json>, key: string, v: Json)
    requires a.Arr? && key !in w
    ensures ArrGet(ArrWrite(a, w), key) == ArrGet(a, key)
    ensures ArrSet(ArrWrite(a, w), key, v) == ArrWrite(a, w[key := v])
  {
    ArrWriteReads(a, w);
    ArrWriteProps(a, w, key, v);
    if IsIndexKey(key) {
      ArrWriteStepItems(a, w, key, v);
    } else {
      ArrWriteStepOther(a, w, key, v);
    }
  }

  /** `v.slice()` or `[...v]`: a new array with the elements of `v`, without its named properties. */
  function ArrayCopy(v: Json): Json
    requires v.Arr?
  {
    Arr(v.items, map[])
  }

  /** The target object, whose own keys the helpers overwrite in place. */
  class JsObject {
    var entries: map<string, Json>

    constructor (entries: map<string, Json>)
      ensures this.entries == entries
    {
      this.entries := entries;
    }
  }

  /** An array the older `objectDeepAssign` writes into in place. */
  class JsArray {
    var items: seq<Json>
    var props: map<string, Json>

    function Value(): (v: Json)
      reads this
      ensures v.Arr?
    {
      Arr(items, props)
    }

    constructor (a: Json)
      requires a.Arr?
      ensures Value() == a
    {
      items := a.items;
      props := a.props;
    }

    /** `this[k] = v`. */
    method Set(k: string, v: Json)
      modifies this
      ensures Value() == ArrSet(old(Value()), k, v)
    {
      var r := ArrSet(Value(), k, v);
      items, props := r.items, r.props;
    }
  }
}
