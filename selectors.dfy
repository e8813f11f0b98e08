/**
  `createSelectorWithModel` (src/createSelectorWithModel.js): a one-slot
  cache in front of `applyModel`, keyed by the identity of the raw value the
  derivation returns.
 */
module Selectors {
  import opened Values
  import opened Defaulting

  /** The closure's two variables. */
  datatype SelectorState = SelectorState(lastState: Value, lastResult: Value)

  /** Both variables start out `undefined`. */
  const Unset := SelectorState(Undefined, Undefined)

  /** One call, given the raw value `next` that `fn(...args)` returned: a raw
      value `===` to the cached one returns the cached result, anything else
      is defaulted and becomes the new cache entry. */
  function SelectorCall(s: SelectorState, next: Value, model: Value, cell: Handle)
    : (out: (SelectorState, Value))
    ensures out.1 == out.0.lastResult
    ensures StrictEquals(out.0.lastState, next)
  {
    if StrictEquals(next, s.lastState) then
      StrictEqualsLaws(next, s.lastState, next);
      (s, s.lastResult)
    else
      StrictEqualsLaws(next, next, next);
      var r := ApplyModel(next, model, cell);
      (SelectorState(next, r), r)
  }

  /** A cache hit returns the cached result and changes nothing; in particular
      `applyModel` does not run. */
  lemma CacheHit(s: SelectorState, next: Value, model: Value, cell: Handle)
    requires StrictEquals(next, s.lastState)
    ensures SelectorCall(s, next, model, cell) == (s, s.lastResult)
  {
  }

  /** A miss stores the raw value and its defaulted form and returns the latter. */
  lemma CacheMiss(s: SelectorState, next: Value, model: Value, cell: Handle)
    requires !StrictEquals(next, s.lastState)
    ensures var r := ApplyModel(next, model, cell);
      SelectorCall(s, next, model, cell) == (SelectorState(next, r), r)
  {
  }

  /** Two consecutive calls whose raw values are `===` return the same value
      (hence the same reference), and the second changes nothing. */
  lemma RepeatIsStable(s: SelectorState, next: Value, next': Value, model: Value,
                       cell: Handle, cell': Handle)
    requires StrictEquals(next, next')
    ensures var (s1, r1) := SelectorCall(s, next, model, cell);
      SelectorCall(s1, next', model, cell') == (s1, r1)
  {
    var (s1, r1) := SelectorCall(s, next, model, cell);
    StrictEqualsLaws(next', next, s1.lastState);
    StrictEqualsLaws(s1.lastState, next, next');
  }

  /** The cache starts with `undefined` as its raw value, so a first call
      whose derivation returns `undefined` is a hit: it returns `undefined`
      even when the template would have supplied a default. */
  lemma FirstUndefinedIsNotDefaulted(model: Value, cell: Handle)
    requires !model.Undefined? && !model.Null?
    ensures SelectorCall(Unset, Undefined, model, cell) == (Unset, Undefined)
    ensures ApplyModel(Undefined, model, cell) != Undefined
  {
    DefaultIsDefined(model, cell);
  }

  /** The function `createSelectorWithModel(fn, model)` returns, with the
      closure's variables as fields. `fn` reads the parameters and the
      external state (`source`) it derives from. */
  class ModelSelector {
    const fn: (Value, Value) -> Value
    const model: Value
    var lastState: Value
    var lastResult: Value
    /** How often the selector was called, and how often it ran `applyModel`. */
    ghost var calls: nat
    ghost var defaultings: nat

    function State(): SelectorState
      reads this
    {
      SelectorState(lastState, lastResult)
    }

    constructor (fn: (Value, Value) -> Value, model: Value)
      ensures this.fn == fn && this.model == model
      ensures State() == Unset
      ensures calls == 0 && defaultings == 0
    {
      this.fn := fn;
      this.model := model;
      lastState := Undefined;
      lastResult := Undefined;
      calls := 0;
      defaultings := 0;
    }

    /** `selector(parameters)`. `cell` is the identity given to a copy that
        defaulting may build. */
    method Call(parameters: Value, source: Value) returns (r: Value, ghost cell: Handle)
      modifies this
      ensures fresh(cell)
      ensures (State(), r) == SelectorCall(old(State()), fn(parameters, source), model, cell)
      ensures calls == old(calls) + 1
      ensures defaultings == old(defaultings) +
        (if StrictEquals(fn(parameters, source), old(lastState)) then 0 else 1)
    {
      var c := new Handle();
      cell := c;
      calls := calls + 1;
      var nextState := fn(parameters, source);
      if StrictEquals(nextState, lastState) {
        r := lastResult;
        return;
      }
      lastState := nextState;
      lastResult := ApplyModel(nextState, model, c);
      defaultings := defaultings + 1;
      r := lastResult;
    }
  }
}
