/**
 * `objectDeepAssign` of packages/reef/src/object.ts, the older variant. A truthy object
 * value that is not an array merges recursively into whatever truthy object the target
 * holds, or into a fresh `{}`. An array the target holds is merged into too: index keys write
 * its elements and other keys its named properties. An array value lands as a spread copy;
 * every other value, falsy ones included, is assigned.
 *
 * Nested objects and arrays are values here: merging into one builds its new contents.
 */
module ReefObject {
  import opened ReefJson
  import ReefNumber
  import ReefLibObject

  /**
   * Whether `target[key]` is kept as the object to merge into (line 8): it must be truthy
   * and of type `'object'`, so a plain object or an array.
   */
  predicate KeptAsBase(existing: Json)
  {
    Truthy(existing) && IsObjectType(existing)
  }

  /**
   * What the key holds after a source value lands on `existing` (lines 4-18): an object
   * merges into the array or object the key holds, else into `{}`; an array is copied.
   */
  ghost function Merged(existing: Json, value: Json): (r: Json)
    ensures value.Obj? ==> (r.Arr? <==> existing.Arr?) && (r.Obj? <==> !existing.Arr?)
    ensures value.Obj? && !existing.Arr? ==> value.fields.Keys <= r.fields.Keys
    ensures value.Arr? ==> r == Arr(value.items, map[])
    ensures !value.Obj? && !value.Arr? ==> r == value
    decreases value, 2
  {
    if Truthy(value) && IsObjectType(value) && !value.Arr? then
      if KeptAsBase(existing) && existing.Arr? then ArrPartial(existing, value, value.fields.Keys)
      else
        var base := if KeptAsBase(existing) then existing.fields else map[];
        Obj(map k | k in base.Keys + value.fields.Keys ::
              if k in value.fields then Merged(Get(base, k), value.fields[k]) else base[k])
    else if value.Arr? then ArrayCopy(value)
    else value
  }

  /** What the keys in `done` of the source leave on the array `a`, key by key. */
  ghost function LandedOnArray(a: Json, value: Json, done: set<string>): map<string, Json>
    requires a.Arr? && value.Obj? && done <= value.fields.Keys
    decreases value, 0
  {
    map k | k in done :: Merged(ArrGet(a, k), value.fields[k])
  }

  /** The array `a` after the keys in `done` of the source object were written onto it. */
  ghost function ArrPartial(a: Json, value: Json, done: set<string>): Json
    requires a.Arr? && value.Obj? && done <= value.fields.Keys
    decreases value, 1
  {
    ArrWrite(a, LandedOnArray(a, value, done))
  }

  /** Writing one more key onto the array: it reads as before, and lands as `Merged` says. */
  lemma ArrPartialStep(a: Json, value: Json, done: set<string>, key: string)
    requires a.Arr? && value.Obj? && done <= value.fields.Keys
    requires key in value.fields && key !in done
    ensures ArrGet(ArrPartial(a, value, done), key) == ArrGet(a, key)
    ensures ArrSet(ArrPartial(a, value, done), key, Merged(ArrGet(a, key), value.fields[key])) ==
            ArrPartial(a, value, done + {key})
  {
    var w := LandedOnArray(a, value, done);
    var v := Merged(ArrGet(a, key), value.fields[key]);
    ArrWriteStep(a, w, key, v);
    assert w[key := v] == LandedOnArray(a, value, done + {key});
  }

  /**
   * An object merged into an array leaves an array: each of the object's keys reads what
   * landed on it, every other key reads as before, and no element is lost.
   */
  lemma ArrayTargetMergedInto(existing: Json, value: Json)
    requires existing.Arr? && value.Obj?
    ensures var r := Merged(existing, value);
            && r.Arr?
            && |r.items| >= |existing.items|
            && (forall k :: k in value.fields ==> ArrGet(r, k) == Merged(ArrGet(existing, k), value.fields[k]))
            && (forall k :: k !in value.fields ==> ArrGet(r, k) == ArrGet(existing, k))
  {
    var w := LandedOnArray(existing, value, value.fields.Keys);
    assert Merged(existing, value) == ArrWrite(existing, w);
    ArrWriteReads(existing, w);
  }

  /** The target after the keys in `done` of the source were written onto `t`. */
  ghost function Partial(t: map<string, Json>, src: map<string, Json>, done: set<string>): map<string, Json>
    requires done <= src.Keys
  {
    map k | k in t.Keys + done :: if k in done then Merged(Get(t, k), src[k]) else t[k]
  }

  lemma PartialStep(t: map<string, Json>, src: map<string, Json>, done: set<string>, key: string)
    requires done <= src.Keys && key in src && key !in done
    ensures Get(Partial(t, src, done), key) == Get(t, key)
    ensures Partial(t, src, done)[key := Merged(Get(t, key), src[key])] == Partial(t, src, done + {key})
  {
  }

  /** The target after all sources were written, left to right. */
  ghost function AssignAll(t: map<string, Json>, sources: seq<Json>): map<string, Json>
    requires forall i :: 0 <= i < |sources| ==> sources[i].Obj?
    decreases |sources|
  {
    if sources == [] then t
    else Merged(Obj(AssignAll(t, sources[..|sources| - 1])), sources[|sources| - 1]).fields
  }

  /** `objectDeepAssign(target, ...sources)`: writes in place and returns the same target. */
  method ObjectDeepAssign(target: JsObject, sources: seq<Json>) returns (r: JsObject)
    requires forall i :: 0 <= i < |sources| ==> sources[i].Obj?
    modifies target
    ensures r == target
    ensures target.entries == AssignAll(old(target.entries), sources)
  {
    var i := 0;
    while i < |sources|
      invariant i <= |sources|
      invariant target.entries == AssignAll(old(target.entries), sources[..i])
    {
      assert sources[..i + 1][..i] == sources[..i];
      AssignSource(target, sources[i]);
      i := i + 1;
    }
    assert sources[..|sources|] == sources;
    r := target;
  }

  /** What one key's value leaves on the key: a recursive merge, an array copy, or the value. */
  method Land(existing: Json, value: Json) returns (w: Json)
    ensures w == Merged(existing, value)
    decreases value, 2
  {
    if Truthy(value) && IsObjectType(value) && !value.Arr? {
      if KeptAsBase(existing) && existing.Arr? {
        var nested := new JsArray(existing);
        AssignIntoArray(nested, value);
        w := nested.Value();
      } else {
        var nested := new JsObject(if KeptAsBase(existing) then existing.fields else map[]);
        AssignSource(nested, value);
        w := Obj(nested.entries);
      }
    } else if value.Arr? {
      w := ArrayCopy(value);
    } else {
      w := value;
    }
  }

  /** The inner `forEach` over the keys of one source; the order of the keys does not matter. */
  method AssignSource(target: JsObject, source: Json)
    requires source.Obj?
    modifies target
    ensures target.entries == Merged(Obj(old(target.entries)), source).fields
    decreases source, 1
  {
    ghost var t0 := target.entries;
    var todo := source.fields.Keys;
    while todo != {}
      invariant todo <= source.fields.Keys
      invariant target.entries == Partial(t0, source.fields, source.fields.Keys - todo)
      decreases todo
    {
      var key :| key in todo;
      ghost var done := source.fields.Keys - todo;
      PartialStep(t0, source.fields, done, key);
      var w := Land(Get(target.entries, key), source.fields[key]);
      target.entries := target.entries[key := w];
      todo := todo - {key};
      assert source.fields.Keys - todo == done + {key};
    }
    assert source.fields.Keys - todo == source.fields.Keys;
  }

  /** The same `forEach` when the target is an array: `target[key]` is an element or a property. */
  method AssignIntoArray(target: JsArray, source: Json)
    requires source.Obj?
    modifies target
    ensures target.Value() == ArrPartial(old(target.Value()), source, source.fields.Keys)
    decreases source, 1
  {
    ghost var a0 := target.Value();
    ArrWriteNone(a0);
    assert LandedOnArray(a0, source, {}) == map[];
    var todo := source.fields.Keys;
    while todo != {}
      invariant todo <= source.fields.Keys
      invariant target.Value() == ArrPartial(a0, source, source.fields.Keys - todo)
      decreases todo
    {
      var key :| key in todo;
      ghost var done := source.fields.Keys - todo;
      ArrPartialStep(a0, source, done, key);
      var w := Land(ArrGet(target.Value(), key), source.fields[key]);
      target.Set(key, w);
      todo := todo - {key};
      assert source.fields.Keys - todo == done + {key};
    }
    assert source.fields.Keys - todo == source.fields.Keys;
  }

  /** A falsy or non-object value overwrites the key, whatever it held. */
  lemma FalsyOverwrites(existing: Json, value: Json)
    requires !Truthy(value) || !IsObjectType(value)
    ensures Merged(existing, value) == value
  {
  }

  /** A plain object the target already holds is merged into: its keys stay, with their values where the source has none. */
  lemma ExistingObjectKept(existing: Json, value: Json)
    requires value.Obj? && existing.Obj?
    ensures Merged(existing, value).Obj?
    ensures existing.fields.Keys <= Merged(existing, value).fields.Keys
    ensures forall k :: k in existing.fields && k !in value.fields ==>
              Merged(existing, value).fields[k] == existing.fields[k]
  {
  }

  /** Where no array of the target meets an object of the source, at any depth. */
  predicate NoArrayMeetsObject(existing: Json, value: Json)
    decreases value
  {
    value.Obj? ==>
      && !existing.Arr?
      && forall k :: k in value.fields ==>
           NoArrayMeetsObject(Get(if existing.Obj? then existing.fields else map[], k), value.fields[k])
  }

  /**
   * The two variants agree except where the target holds an array and the source an object
   * at the same key: there this one merges into the array and the newer one into `{}`.
   */
  lemma {:induction false} VariantsAgree(existing: Json, value: Json)
    requires NoArrayMeetsObject(existing, value)
    ensures Merged(existing, value) == ReefLibObject.Merged(existing, value)
    decreases value
  {
    if value.Obj? {
      var base := if existing.Obj? then existing.fields else map[];
      var mine := Merged(existing, value);
      var theirs := ReefLibObject.Merged(existing, value);
      forall k | k in value.fields
        ensures mine.fields[k] == theirs.fields[k]
      {
        VariantsAgree(Get(base, k), value.fields[k]);
      }
      assert mine.fields == theirs.fields;
    }
  }

  /**
   * An array in the target under an object of the source: here `{x: 1}` lands on `[]` as a
   * named property of the array, and `{0: 9}` overwrites the element of `[7]`; the newer
   * variant replaces the array by a merge into `{}`.
   */
  lemma ArrayTargetDiffers()
    ensures var value := Obj(map["x" := Num(1)]);
            && Merged(Arr([], map[]), value) == Arr([], map["x" := Num(1)])
            && ReefLibObject.Merged(Arr([], map[]), value) == value
    ensures Merged(Arr([Num(7)], map[]), Obj(map["0" := Num(9)])) == Arr([Num(9)], map[])
  {
    var value := Obj(map["x" := Num(1)]);
    ArrayTargetMergedInto(Arr([], map[]), value);
    var mine := Merged(Arr([], map[]), value);
    XIsNoIndex();
    assert ArrGet(mine, "x") == Num(1);
    assert mine.items == [];
    forall k | k in mine.props
      ensures k == "x"
    {
      assert k in Arr([], map[]).props.Keys + (set k | k in value.fields.Keys && !IsIndexKey(k));
    }
    assert mine.props == map["x" := Num(1)];
    var theirs := ReefLibObject.Merged(Arr([], map[]), value);
    assert theirs.fields.Keys == {"x"};
    assert theirs.fields["x"] == Num(1);
    assert theirs.fields == value.fields;
    SevenOverwritten();
  }

  lemma XIsNoIndex()
    ensures !IsIndexKey("x")
  {
    assert "x"[0] == 'x';
  }

  /** `{0: 9}` merged into `[7]` overwrites the element: the array reads `[9]`. */
  lemma SevenOverwritten()
    ensures Merged(Arr([Num(7)], map[]), Obj(map["0" := Num(9)])) == Arr([Num(9)], map[])
  {
    var a := Arr([Num(7)], map[]);
    var value := Obj(map["0" := Num(9)]);
    IndexKeyOf(0);
    assert ReefNumber.NatToString(0) == "0";
    assert IndicesOf({"0"}) == {0};
    EndOfUnique(1, {0}, 1);
    var r := Merged(a, value);
    assert |r.items| == 1;
    assert r.items[0] == Num(9);
    assert r.items == [Num(9)];
    assert (set k | k in {"0"} && !IsIndexKey(k)) == {};
    assert r.props == map[];
  }

  /** `{a: 1, b: 2}` with `{b: 3, c: 4}` written onto it is `{a: 1, b: 3, c: 4}`. */
  lemma AssignExample()
    ensures AssignAll(map["a" := Num(1), "b" := Num(2)], [Obj(map["b" := Num(3), "c" := Num(4)])])
            == map["a" := Num(1), "b" := Num(3), "c" := Num(4)]
  {
    var t := map["a" := Num(1), "b" := Num(2)];
    var src := Obj(map["b" := Num(3), "c" := Num(4)]);
    assert [src][..0] == [];
    var r := Merged(Obj(t), src).fields;
    assert r.Keys == {"a", "b", "c"};
    assert r["a"] == Num(1) && r["b"] == Num(3) && r["c"] == Num(4);
  }
}
