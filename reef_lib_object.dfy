/**
 * `objectDeepAssign` of packages/reef/src/lib/object.ts: the keys of each source, in the
 * order of the sources, are written onto the target; a plain-object value is merged
 * recursively into the target's own plain object (a fresh `{}` when there is none), an array
 * is copied (its elements only), anything else is assigned.
 *
 * Nested objects are values here: merging into one builds its new contents.
 */
module ReefLibObject {
  import opened ReefJson

  /** `isPlainObject(v)`: an object that is neither `null` nor an array. */
  predicate IsPlainObject(v: Json)
    ensures IsPlainObject(v) <==> IsObjectType(v) && !v.Null? && !v.Arr?
  {
    v.Obj?
  }

  /**
   * What the key holds after a source value lands on the value `existing` (lines 14-28):
   * a plain object merges into `existing` when that is a plain object and into `{}` when it
   * is not; an array lands as a copy of its elements; anything else lands as it is.
   */
  function Merged(existing: Json, value: Json): (r: Json)
    ensures IsPlainObject(value) ==> r.Obj? && value.fields.Keys <= r.fields.Keys
    ensures IsPlainObject(value) && IsPlainObject(existing) ==> existing.fields.Keys <= r.fields.Keys
    ensures value.Arr? ==> r == Arr(value.items, map[])
    ensures !IsPlainObject(value) && !value.Arr? ==> r == value
    decreases value
  {
    if IsPlainObject(value) then
      var base := if IsPlainObject(existing) then existing.fields else map[];
      Obj(map k | k in base.Keys + value.fields.Keys ::
            if k in value.fields then Merged(Get(base, k), value.fields[k]) else base[k])
    else if value.Arr? then ArrayCopy(value)
    else value
  }

  /** The target after the keys in `done` of the source were written onto `t`. */
  function Partial(t: map<string, Json>, src: map<string, Json>, done: set<string>): map<string, Json>
    requires done <= src.Keys
  {
    map k | k in t.Keys + done :: if k in done then Merged(Get(t, k), src[k]) else t[k]
  }

  /** Writing one more key: the key reads as it did before the source, and lands as `Merged` says. */
  lemma PartialStep(t: map<string, Json>, src: map<string, Json>, done: set<string>, key: string)
    requires done <= src.Keys && key in src && key !in done
    ensures Get(Partial(t, src, done), key) == Get(t, key)
    ensures Partial(t, src, done)[key := Merged(Get(t, key), src[key])] == Partial(t, src, done + {key})
  {
  }

  /** The target after all sources were written, left to right. */
  function AssignAll(t: map<string, Json>, sources: seq<Json>): map<string, Json>
    requires forall i :: 0 <= i < |sources| ==> sources[i].Obj?
    decreases |sources|
  {
    if sources == [] then t
    else Merged(Obj(AssignAll(t, sources[..|sources| - 1])), sources[|sources| - 1]).fields
  }

  /** `objectDeepAssign(target, ...sources)`: writes in place and returns the same target. */
  method ObjectDeepAssign(target: JsObject, sources: seq<Json>) returns (r: JsObject)
    requires forall i :: 0 <= i < |sources| ==> sources[i].Obj?
    modifies target
    ensures r == target
    ensures target.entries == AssignAll(old(target.entries), sources)
  {
    var i := 0;
    while i < |sources|
      invariant i <= |sources|
      invariant target.entries == AssignAll(old(target.entries), sources[..i])
    {
      assert sources[..i + 1][..i] == sources[..i];
      AssignSource(target, sources[i]);
      i := i + 1;
    }
    assert sources[..|sources|] == sources;
    r := target;
  }

  /** The inner `forEach` over the keys of one source; the order of the keys does not matter. */
  method AssignSource(target: JsObject, source: Json)
    requires source.Obj?
    modifies target
    ensures target.entries == Merged(Obj(old(target.entries)), source).fields
    decreases source
  {
    ghost var t0 := target.entries;
    var todo := source.fields.Keys;
    while todo != {}
      invariant todo <= source.fields.Keys
      invariant target.entries == Partial(t0, source.fields, source.fields.Keys - todo)
      decreases todo
    {
      var key :| key in todo;
      ghost var done := source.fields.Keys - todo;
      var value := source.fields[key];
      PartialStep(t0, source.fields, done, key);
      var existing := Get(target.entries, key);
      if IsPlainObject(value) {
        var nested := new JsObject(if IsPlainObject(existing) then existing.fields else map[]);
        AssignSource(nested, value);
        target.entries := target.entries[key := Obj(nested.entries)];
      } else if value.Arr? {
        target.entries := target.entries[key := ArrayCopy(value)];
      } else {
        target.entries := target.entries[key := value];
      }
      todo := todo - {key};
      assert source.fields.Keys - todo == done + {key};
    }
    assert source.fields.Keys - todo == source.fields.Keys;
  }

  /** A key that no source has keeps its value. */
  lemma {:induction false} UntouchedKeysKeep(t: map<string, Json>, sources: seq<Json>, k: string)
    requires forall i :: 0 <= i < |sources| ==> sources[i].Obj?
    requires k in t && forall i :: 0 <= i < |sources| ==> k !in sources[i].fields
    ensures k in AssignAll(t, sources) && AssignAll(t, sources)[k] == t[k]
    decreases |sources|
  {
    if sources != [] {
      UntouchedKeysKeep(t, sources[..|sources| - 1], k);
    }
  }

  /**
   * The last source that has a key decides it, when its value there is not a plain object:
   * the key holds that value, or for an array a copy of its elements.
   */
  lemma LastSourceWins(t: map<string, Json>, sources: seq<Json>, k: string)
    requires forall i :: 0 <= i < |sources| ==> sources[i].Obj?
    requires sources != [] && k in sources[|sources| - 1].fields
    requires !IsPlainObject(sources[|sources| - 1].fields[k])
    ensures var v := sources[|sources| - 1].fields[k];
            && k in AssignAll(t, sources)
            && (!v.Arr? ==> AssignAll(t, sources)[k] == v)
            && (v.Arr? ==> AssignAll(t, sources)[k] == Arr(v.items, map[]))
  {
    var last := sources[|sources| - 1];
    var before := AssignAll(t, sources[..|sources| - 1]);
    assert AssignAll(t, sources) == Merged(Obj(before), last).fields;
    assert Merged(Get(before, k), last.fields[k]) ==
             if last.fields[k].Arr? then ArrayCopy(last.fields[k]) else last.fields[k];
  }

  /**
   * The keys after a merge are the old keys and the source's keys; a plain-object value lands
   * on `{}` when the target holds anything else there (an array, `null`, a primitive).
   */
  lemma MergedKeys(existing: Json, value: Json)
    requires value.Obj?
    ensures Merged(existing, value).Obj?
    ensures Merged(existing, value).fields.Keys ==
              (if existing.Obj? then existing.fields.Keys else {}) + value.fields.Keys
    ensures !existing.Obj? ==> Merged(existing, value) == Merged(Obj(map[]), value)
  {
  }

  /** The keys of all sources together. */
  function SourceKeys(sources: seq<Json>): set<string>
    requires forall i :: 0 <= i < |sources| ==> sources[i].Obj?
    decreases |sources|
  {
    if sources == [] then {} else SourceKeys(sources[..|sources| - 1]) + sources[|sources| - 1].fields.Keys
  }

  /** Afterwards the target has its old keys and every source's keys, and no others. */
  lemma {:induction false} AssignAllKeys(t: map<string, Json>, sources: seq<Json>)
    requires forall i :: 0 <= i < |sources| ==> sources[i].Obj?
    ensures AssignAll(t, sources).Keys == t.Keys + SourceKeys(sources)
    decreases |sources|
  {
    if sources != [] {
      var before := AssignAll(t, sources[..|sources| - 1]);
      AssignAllKeys(t, sources[..|sources| - 1]);
      MergedKeys(Obj(before), sources[|sources| - 1]);
    }
  }

  /** Writing the same source twice is writing it once. */
  lemma {:induction false} MergeIdempotent(existing: Json, value: Json)
    ensures Merged(Merged(existing, value), value) == Merged(existing, value)
    decreases value
  {
    if value.Obj? {
      var base := if existing.Obj? then existing.fields else map[];
      var once := Merged(existing, value);
      var twice := Merged(once, value);
      forall k | k in value.fields
        ensures twice.fields[k] == once.fields[k]
      {
        MergeIdempotent(Get(base, k), value.fields[k]);
      }
      assert twice.fields == once.fields;
    }
  }
}
