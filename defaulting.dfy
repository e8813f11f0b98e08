/**
  `applyModel` (src/createSelectorWithModel.js): one-level defaulting of a
  derived value against the template a token carries.
 */
module Defaulting {
  import opened Values

  /** Where `key` first occurs in a property list that has it. */
  function KeyIndex(props: Props, key: string): (i: nat)
    requires key in KeysOf(props)
    ensures i < |props| && props[i].0 == key
  {
    if props[0].0 == key then 0
    else
      assert KeysOf(props[1..]) == KeysOf(props)[1..];
      1 + KeyIndex(props[1..], key)
  }

  /** Appending a new key: it holds the appended value, and every other key
      keeps what it held. */
  lemma {:induction false} OwnAppend(acc: Props, key: string, v: Value)
    requires key !in KeysOf(acc)
    ensures Own(acc + [(key, v)], key) == v
    ensures forall k :: k != key ==> Own(acc + [(key, v)], k) == Own(acc, k)
  {
    if |acc| > 0 {
      assert KeysOf(acc[1..]) == KeysOf(acc)[1..];
      assert (acc + [(key, v)])[1..] == acc[1..] + [(key, v)];
      OwnAppend(acc[1..], key, v);
    }
  }

  /** Overwriting the first entry of a key already present: it holds the new
      value, and every other key keeps what it held. */
  lemma {:induction false} OwnUpdate(acc: Props, key: string, v: Value)
    requires key in KeysOf(acc)
    ensures Own(acc[KeyIndex(acc, key) := (key, v)], key) == v
    ensures forall k :: k != key ==>
      Own(acc[KeyIndex(acc, key) := (key, v)], k) == Own(acc, k)
  {
    var r := acc[KeyIndex(acc, key) := (key, v)];
    if acc[0].0 != key {
      assert KeysOf(acc[1..]) == KeysOf(acc)[1..];
      var i := KeyIndex(acc[1..], key);
      assert r[1..] == acc[1..][i := (key, v)];
      OwnUpdate(acc[1..], key, v);
    } else {
      assert r[1..] == acc[1..];
    }
  }

  /** `{ ...acc, [key]: v }`: a key already present keeps its place and
      takes the new value; a new key goes last; every other key keeps its value. */
  function Put(acc: Props, key: string, v: Value): (r: Props)
    ensures key in KeysOf(acc) ==> KeysOf(r) == KeysOf(acc)
    ensures key !in KeysOf(acc) ==> r == acc + [(key, v)]
    ensures Own(r, key) == v
    ensures forall k :: k != key ==> Own(r, k) == Own(acc, k)
  {
    if key in KeysOf(acc) then
      var i := KeyIndex(acc, key);
      OwnUpdate(acc, key, v);
      assert KeysOf(acc[i := (key, v)]) == KeysOf(acc);
      acc[i := (key, v)]
    else
      OwnAppend(acc, key, v);
      acc + [(key, v)]
  }

  /** The keys after `{ ...acc, [key]: v }` are those of `acc` and `key`. */
  lemma PutKeys(acc: Props, key: string, v: Value)
    ensures forall k :: k in KeysOf(Put(acc, key, v)) <==> k in KeysOf(acc) || k == key
  {
    if key !in KeysOf(acc) {
      assert KeysOf(acc + [(key, v)]) == KeysOf(acc) + [key];
    }
  }

  /** The value the merge keeps under `key`: `result[key]` unless that is
      `undefined`, else `model[key]`. */
  function Pick(result: Value, model: Value, key: string): (r: Value)
    ensures r == Get(result, key) || r == Get(model, key)
    ensures r.Undefined? <==> Get(result, key).Undefined? && Get(model, key).Undefined?
  {
    var resultValue := Get(result, key);
    if resultValue.Undefined? then Get(model, key) else resultValue
  }

  /** `keys.reduce((acc, key) => ({ ...acc, [key]: Pick(key) }), {})`. */
  function Merge(result: Value, model: Value, keys: seq<string>): (r: Props)
    ensures forall k :: k in KeysOf(r) <==> k in keys
  {
    if |keys| == 0 then []
    else
      var last := keys[|keys| - 1];
      assert keys == keys[..|keys| - 1] + [last];
      PutKeys(Merge(result, model, keys[..|keys| - 1]), last, Pick(result, model, last));
      Put(Merge(result, model, keys[..|keys| - 1]), last, Pick(result, model, last))
  }

  /** `applyModel(result, model)`. `cell` is the identity a copy built here
      receives; the caller passes a freshly allocated one. */
  function ApplyModel(result: Value, model: Value, cell: Handle): (r: Value)
    ensures r == result || r == model || ((r.Arr? || r.Obj?) && r.ref == cell)
  {
    if model.Undefined? || model.Null? then result
    else if result.Null? then result
    else if IsPrimitive(model) then
      if result.Undefined? then model
      else if TypeOf(model) != TypeOf(result) then model
      else result
    else if model.Arr? then
      if result.Undefined? then Arr(cell, model.elems)
      else if !result.Arr? then Arr(cell, model.elems)
      else result
    else if result.Undefined? then Obj(cell, model.props)
    else Obj(cell, Merge(result, model, KeysOf(model.props)))
  }

  /** One step of the reduce: a key not yet merged is appended. */
  lemma MergeAppends(result: Value, model: Value, keys: seq<string>)
    requires |keys| > 0 && keys[|keys| - 1] !in keys[..|keys| - 1]
    ensures var last := keys[|keys| - 1];
      Merge(result, model, keys) == Merge(result, model, keys[..|keys| - 1]) + [(last, Pick(result, model, last))]
  {
  }

  /** Appending the last key, with its picked value, to a merged prefix of the
      key list gives the merged shape of the whole list. */
  lemma AppendShape(result: Value, model: Value, acc: Props, keys: seq<string>)
    requires |keys| > 0 && KeysOf(acc) == keys[..|keys| - 1]
    requires forall i :: 0 <= i < |acc| ==> acc[i].1 == Pick(result, model, keys[i])
    ensures var r := acc + [(keys[|keys| - 1], Pick(result, model, keys[|keys| - 1]))];
      && KeysOf(r) == keys
      && forall i :: 0 <= i < |keys| ==> r[i].1 == Pick(result, model, keys[i])
  {
    var r := acc + [(keys[|keys| - 1], Pick(result, model, keys[|keys| - 1]))];
    forall i | 0 <= i < |keys|
      ensures r[i].0 == keys[i] && r[i].1 == Pick(result, model, keys[i])
    {
      if i < |acc| {
        assert r[i] == acc[i];
      }
    }
  }

  /** Dropping the last key of a list without repeats leaves one without
      repeats that does not contain it. */
  lemma DistinctSplit(keys: seq<string>)
    requires Distinct(keys) && |keys| > 0
    ensures Distinct(keys[..|keys| - 1]) && keys[|keys| - 1] !in keys[..|keys| - 1]
  {
    var init := keys[..|keys| - 1];
    assert forall i :: 0 <= i < |init| ==> init[i] == keys[i];
  }

  /** The reduce adds each key of a key list without repeats exactly once,
      in order, with the value Pick chooses for it. */
  lemma {:induction false} MergeShape(result: Value, model: Value, keys: seq<string>)
    requires Distinct(keys)
    ensures KeysOf(Merge(result, model, keys)) == keys
    ensures forall i :: 0 <= i < |keys| ==>
      Merge(result, model, keys)[i].1 == Pick(result, model, keys[i])
  {
    if |keys| > 0 {
      var init := keys[..|keys| - 1];
      DistinctSplit(keys);
      MergeShape(result, model, init);
      MergeAppends(result, model, keys);
      AppendShape(result, model, Merge(result, model, init), keys);
    }
  }

  /** An absent template leaves the value alone (same reference). */
  lemma AbsentModel(result: Value, model: Value, cell: Handle)
    requires model.Undefined? || model.Null?
    ensures ApplyModel(result, model, cell) == result
  {
  }

  /** `null` is never defaulted. */
  lemma NullResult(model: Value, cell: Handle)
    ensures ApplyModel(Null, model, cell) == Null
  {
  }

  /** A primitive template: the output always has the template's `typeof`;
      a result of that type passes through, anything else gives the template. */
  lemma PrimitiveModel(result: Value, model: Value, cell: Handle)
    requires IsPrimitive(model) && !result.Null?
    ensures TypeOf(ApplyModel(result, model, cell)) == TypeOf(model)
    ensures TypeOf(result) == TypeOf(model) ==> ApplyModel(result, model, cell) == result
    ensures TypeOf(result) != TypeOf(model) ==> ApplyModel(result, model, cell) == model
  {
  }

  /** An array template: an array result passes through untouched; anything
      else (including `undefined`) gives a copy of the template with the same
      elements and the new identity. */
  lemma ArrayModel(result: Value, model: Value, cell: Handle)
    requires model.Arr? && !result.Null?
    ensures result.Arr? ==> ApplyModel(result, model, cell) == result
    ensures !result.Arr? ==> ApplyModel(result, model, cell) == Arr(cell, model.elems)
  {
  }

  /** A keyed template and an `undefined` result: a shallow copy of the template. */
  lemma KeyedModelUndefined(model: Value, cell: Handle)
    requires model.Obj?
    ensures ApplyModel(Undefined, model, cell) == Obj(cell, model.props)
  {
  }

  /** A keyed template and a defined result: the reduce's object under the new identity. */
  lemma KeyedApply(result: Value, model: Value, cell: Handle)
    requires model.Obj? && !result.Undefined? && !result.Null?
    ensures ApplyModel(result, model, cell) == Obj(cell, Merge(result, model, KeysOf(model.props)))
  {
    assert !IsPrimitive(model);
  }

  /** A keyed template and a defined result: a new object whose keys are
      exactly the template's, in its order, each holding the result's value
      unless that is `undefined`, else the template's. Keys only the result
      has are dropped. */
  lemma KeyedModelMerge(result: Value, model: Value, cell: Handle)
    requires model.Obj? && WellFormed(model)
    requires !result.Undefined? && !result.Null?
    ensures var r := ApplyModel(result, model, cell);
      && r.Obj? && r.ref == cell
      && KeysOf(r.props) == KeysOf(model.props)
      && forall i :: 0 <= i < |r.props| ==>
           r.props[i].1 == (if Get(result, r.props[i].0).Undefined? then model.props[i].1
                            else Get(result, r.props[i].0))
  {
    var keys := KeysOf(model.props);
    var merged := Merge(result, model, keys);
    assert !IsPrimitive(model);
    MergeShape(result, model, keys);
    forall i | 0 <= i < |merged|
      ensures merged[i].1 == (if Get(result, merged[i].0).Undefined? then model.props[i].1
                              else Get(result, merged[i].0))
    {
      OwnAt(model.props, i);
    }
  }

  /** The result already fits the template, so no defaulting is needed. */
  predicate Conforms(result: Value, model: Value)
  {
    || model.Undefined? || model.Null? || result.Null?
    || (IsPrimitive(model) && TypeOf(result) == TypeOf(model))
    || (model.Arr? && result.Arr?)
  }

  /** Identity preservation: the output is `===` to the input exactly when the
      input already fits the template; otherwise a different value comes back
      (the template, or a new object when the template is an array or object). */
  lemma IdentityPreserved(result: Value, model: Value, cell: Handle)
    requires (result.Arr? || result.Obj?) ==> result.ref != cell
    ensures StrictEquals(ApplyModel(result, model, cell), result) <==> Conforms(result, model)
  {
    var r := ApplyModel(result, model, cell);
    StrictEqualsLaws(r, result, result);
    if Conforms(result, model) {
      assert r == result;
    } else if IsPrimitive(model) {
      assert r == model;
    }
  }

  /** Defaulting twice is defaulting once: the second pass changes nothing but,
      for a keyed template, the identity of the rebuilt object. */
  lemma Idempotent(result: Value, model: Value, cell: Handle, cell': Handle)
    requires WellFormed(model)
    ensures var once := ApplyModel(result, model, cell);
      var twice := ApplyModel(once, model, cell');
      twice == once || (once.Obj? && twice == Obj(cell', once.props))
  {
    var once := ApplyModel(result, model, cell);
    var twice := ApplyModel(once, model, cell');
    if model.Obj? && !result.Null? {
      var keys := KeysOf(model.props);
      if !result.Undefined? {
        KeyedModelMerge(result, model, cell);
      }
      assert KeysOf(once.props) == keys;
      KeyedModelMerge(once, model, cell');
      forall i | 0 <= i < |keys| ensures twice.props[i] == once.props[i] {
        OwnAt(once.props, i);
        if !result.Undefined? {
          OwnAt(model.props, i);
        }
      }
      assert twice.props == once.props;
    }
  }

  /** With a template present, defaulting `undefined` never yields `undefined`. */
  lemma DefaultIsDefined(model: Value, cell: Handle)
    requires !model.Undefined? && !model.Null?
    ensures !ApplyModel(Undefined, model, cell).Undefined?
  {
  }

  /** Defaulting against a two-key template `{kx: _, ky: _}`. */
  lemma TwoKeyMerge(result: Value, model: Value, cell: Handle, kx: string, ky: string, x: Value, y: Value)
    requires model.Obj? && |model.props| == 2 && model.props[0].0 == kx && model.props[1].0 == ky
    requires kx != ky && result.Obj?
    requires Pick(result, model, kx) == x && Pick(result, model, ky) == y
    ensures ApplyModel(result, model, cell) == Obj(cell, [(kx, x), (ky, y)])
  {
    var keys := KeysOf(model.props);
    assert keys == [kx, ky];
    assert keys[..1] == [kx] && [kx][..0] == [];
    MergeAppends(result, model, [kx]);
    MergeAppends(result, model, keys);
    KeyedApply(result, model, cell);
  }

  /** The end-to-end run's template `{x: 0, y: 0}` against `{x: 1}` and then
      against `{x: 1, y: 5}`. */
  lemma ScenarioDefaults(model: Value, src0: Value, src1: Value, c0: Handle, c1: Handle)
    requires model.Obj? && model.props == [("x", Num(0)), ("y", Num(0))]
    requires src0.Obj? && src0.props == [("x", Num(1))]
    requires src1.Obj? && src1.props == [("x", Num(1)), ("y", Num(5))]
    ensures ApplyModel(src0, model, c0) == Obj(c0, [("x", Num(1)), ("y", Num(0))])
    ensures ApplyModel(src1, model, c1) == Obj(c1, [("x", Num(1)), ("y", Num(5))])
  {
    assert "x" != "y" by { assert "x"[0] != "y"[0]; }
    assert model.props[1..] == [("y", Num(0))];
    assert Get(model, "y") == Num(0) by {
      assert Own([("y", Num(0))], "y") == Num(0);
    }
    assert Get(src0, "y") == Undefined by {
      assert Own(src0.props[1..], "y") == Undefined;
    }
    TwoKeyMerge(src0, model, c0, "x", "y", Num(1), Num(0));
    assert src1.props[1..] == [("y", Num(5))];
    assert Get(src1, "y") == Num(5) by {
      assert Own([("y", Num(5))], "y") == Num(5);
    }
    TwoKeyMerge(src1, model, c1, "x", "y", Num(1), Num(5));
  }
}
