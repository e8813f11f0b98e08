/**
  `createNotifierSubscription` (src/createNotifierSubscription.js): a
  resource that reads a derived, defaulted value through an age check and
  tells subscribers only when that value changes identity.
 */
module Subscriptions {
  import opened Values
  import opened Defaulting
  import opened Selectors

  /** The closure's variables: `lastParameters`, `lastValue`, `lastAge`, and
      the state of the selector it built. */
  datatype SubscriptionState = SubscriptionState(
    lastParameters: Value, lastValue: Value, lastAge: Value, selector: SelectorState)

  const Initial := SubscriptionState(Undefined, Undefined, Undefined, Unset)

  /** What the notifier shows at the moment of a read: `getAge()` and the
      external state the derivation reads. */
  datatype Env = Env(age: Value, source: Value)

  /** The derivation `getNextValue` and the template `token.model`. */
  datatype Derivation = Derivation(fn: (Value, Value) -> Value, model: Value)

  /** The cached value is the selector's cached result. */
  ghost predicate Coherent(s: SubscriptionState)
  {
    s.lastValue == s.selector.lastResult
  }

  /** `parameters = lastParameters`: the default applies when the argument is
      missing or `undefined`. */
  function Effective(s: SubscriptionState, parameters: Value): (r: Value)
    ensures r == parameters || r == s.lastParameters
    ensures !parameters.Undefined? ==> r == parameters
    ensures r.Undefined? <==> parameters.Undefined? && s.lastParameters.Undefined?
  {
    if parameters.Undefined? then s.lastParameters else parameters
  }

  /** Same age and the same parameters reference: the cached value stands. */
  predicate IsFastPath(s: SubscriptionState, parameters: Value, age: Value)
  {
    StrictEquals(age, s.lastAge) && StrictEquals(Effective(s, parameters), s.lastParameters)
  }

  /** `read(parameters)`. `cell` is the identity a copy built by defaulting
      would receive; it is needed only off the fast path. */
  function ReadStep(s: SubscriptionState, parameters: Value, env: Env, d: Derivation,
                    cell: Handle?): (out: (SubscriptionState, Value))
    requires !IsFastPath(s, parameters, env.age) ==> cell != null
    ensures out.1 == out.0.lastValue
    ensures out.0.lastParameters == Effective(s, parameters)
    ensures StrictEquals(out.0.lastAge, env.age)
    ensures Coherent(s) ==> Coherent(out.0)
  {
    var params := Effective(s, parameters);
    var expired := !StrictEquals(params, s.lastParameters);
    if StrictEquals(env.age, s.lastAge) && !expired then
      StrictEqualsLaws(env.age, s.lastAge, env.age);
      (s.(lastParameters := params), s.lastValue)
    else
      StrictEqualsLaws(env.age, env.age, env.age);
      var (sel, v) := SelectorCall(s.selector, d.fn(params, env.source), d.model, cell);
      (SubscriptionState(params, v, env.age, sel), v)
  }

  /** The fast path returns the cached value, keeps the age and the selector
      untouched, and so never calls the derivation. */
  lemma FastPath(s: SubscriptionState, parameters: Value, env: Env, d: Derivation, cell: Handle?)
    requires IsFastPath(s, parameters, env.age)
    ensures ReadStep(s, parameters, env, d, cell)
         == (s.(lastParameters := Effective(s, parameters)), s.lastValue)
  {
  }

  /** Off the fast path the age is recorded and the selector runs exactly once
      on the derivation's output for these parameters. */
  lemma Recompute(s: SubscriptionState, parameters: Value, env: Env, d: Derivation, cell: Handle)
    requires !IsFastPath(s, parameters, env.age)
    ensures var params := Effective(s, parameters);
      var (sel, v) := SelectorCall(s.selector, d.fn(params, env.source), d.model, cell);
      ReadStep(s, parameters, env, d, cell) == (SubscriptionState(params, v, env.age, sel), v)
  {
  }

  /** `read()` reads with the parameters of the previous read, so it is never
      "expired": only a change of age can make it recompute. */
  lemma ReadWithoutParameters(s: SubscriptionState, age: Value)
    ensures IsFastPath(s, Undefined, age) <==> StrictEquals(age, s.lastAge)
  {
    StrictEqualsLaws(s.lastParameters, s.lastParameters, s.lastParameters);
  }

  /** A new parameters reference always forces a fresh derivation, whatever
      the age. */
  lemma NewParametersRecompute(s: SubscriptionState, parameters: Value, age: Value)
    requires !parameters.Undefined? && !StrictEquals(parameters, s.lastParameters)
    ensures !IsFastPath(s, parameters, age)
  {
  }

  /** Identity stability: reading again with the same parameters at the same
      age returns the very same value and leaves the state as it was. */
  lemma {:induction false} ReadIsStable(s: SubscriptionState, parameters: Value, env: Env,
                                        d: Derivation, cell: Handle, cell': Handle?)
    ensures var (s1, v1) := ReadStep(s, parameters, env, d, cell);
      IsFastPath(s1, parameters, env.age)
      && ReadStep(s1, parameters, env, d, cell') == (s1, v1)
  {
    var (s1, v1) := ReadStep(s, parameters, env, d, cell);
    StrictEqualsLaws(env.age, s1.lastAge, env.age);
    StrictEqualsLaws(Effective(s1, parameters), Effective(s1, parameters), Effective(s1, parameters));
    assert Effective(s1, parameters) == s1.lastParameters;
    FastPath(s1, parameters, env, d, cell');
  }

  /** Any number of further reads with the same parameters and age. */
  function ReadRepeatedly(s: SubscriptionState, parameters: Value, env: Env, d: Derivation,
                          cells: seq<Handle>): SubscriptionState
    requires |cells| > 0
    decreases |cells|
  {
    var (s1, _) := ReadStep(s, parameters, env, d, cells[0]);
    if |cells| == 1 then s1 else ReadRepeatedly(s1, parameters, env, d, cells[1..])
  }

  /** Age-gated recomputation: however many reads follow the first, they all
      leave the state the first one produced. */
  lemma {:induction false} RepeatedReadsAgree(s: SubscriptionState, parameters: Value, env: Env,
                                              d: Derivation, cells: seq<Handle>)
    requires |cells| > 0
    ensures ReadRepeatedly(s, parameters, env, d, cells) == ReadStep(s, parameters, env, d, cells[0]).0
    decreases |cells|
  {
    if |cells| > 1 {
      var s1 := ReadStep(s, parameters, env, d, cells[0]).0;
      ReadIsStable(s, parameters, env, d, cells[0], cells[1]);
      RepeatedReadsAgree(s1, parameters, env, d, cells[1..]);
    }
  }

  /** The listener `subscribe` registers: `lastValue !== read()`, and the
      flag says whether it calls `notify`. */
  function Fire(s: SubscriptionState, env: Env, d: Derivation, cell: Handle?)
    : (out: (SubscriptionState, bool))
    requires !IsFastPath(s, Undefined, env.age) ==> cell != null
    ensures out.1 <==> !StrictEquals(s.lastValue, out.0.lastValue)
    ensures out.0.lastParameters == s.lastParameters
    ensures Coherent(s) ==> Coherent(out.0)
  {
    var (s1, v) := ReadStep(s, Undefined, env, d, cell);
    (s1, !StrictEquals(s.lastValue, v))
  }

  /** A run of notifications, one per entry of `events`; the count is how
      often `notify` was called. */
  function FireAll(s: SubscriptionState, events: seq<Env>, d: Derivation, cells: seq<Handle>)
    : (out: (SubscriptionState, nat))
    requires |cells| == |events|
    ensures out.1 <= |events|
    ensures out.0.lastParameters == s.lastParameters
    ensures Coherent(s) ==> Coherent(out.0)
    ensures out.1 == 0 ==> StrictEquals(out.0.lastValue, s.lastValue)
    decreases |events|
  {
    if |events| == 0 then
      StrictEqualsLaws(s.lastValue, s.lastValue, s.lastValue);
      (s, 0)
    else
      var (s1, fired) := Fire(s, events[0], d, cells[0]);
      var (s2, n) := FireAll(s1, events[1..], d, cells[1..]);
      StrictEqualsLaws(s2.lastValue, s1.lastValue, s.lastValue);
      StrictEqualsLaws(s.lastValue, s1.lastValue, s1.lastValue);
      (s2, n + if fired then 1 else 0)
  }

  /** Change-filtered notification: when every notification finds the
      derivation returning the raw value the selector already holds, the
      notifier may fire any number of times and `notify` is never called. */
  lemma {:induction false} QuietWhenRawUnchanged(s: SubscriptionState, events: seq<Env>,
                                                 d: Derivation, cells: seq<Handle>)
    requires |cells| == |events| && Coherent(s)
    requires forall i :: 0 <= i < |events| ==>
      StrictEquals(d.fn(s.lastParameters, events[i].source), s.selector.lastState)
    ensures FireAll(s, events, d, cells).1 == 0
    ensures FireAll(s, events, d, cells).0.lastValue == s.lastValue
    decreases |events|
  {
    if |events| > 0 {
      var (s1, fired) := Fire(s, events[0], d, cells[0]);
      StrictEqualsLaws(s.lastValue, s.lastValue, s.lastValue);
      assert s1.selector == s.selector && s1.lastValue == s.lastValue && !fired;
      assert forall i :: 0 <= i < |events[1..]| ==> events[1..][i] == events[i + 1];
      QuietWhenRawUnchanged(s1, events[1..], d, cells[1..]);
    }
  }

  /** Change-filtered notification on the defaulted value: the raw value may
      change on every notification, yet as long as its defaulted form stays
      `===` to `w`, the value held already, `notify` is never called and the
      value held stays `===` to `w`. */
  lemma {:induction false} QuietWhenDefaultedUnchanged(s: SubscriptionState, events: seq<Env>,
                                                       d: Derivation, cells: seq<Handle>, w: Value)
    requires |cells| == |events| && Coherent(s)
    requires StrictEquals(s.lastValue, w)
    requires forall i :: 0 <= i < |events| ==>
      StrictEquals(ApplyModel(d.fn(s.lastParameters, events[i].source), d.model, cells[i]), w)
    ensures FireAll(s, events, d, cells).1 == 0
    ensures StrictEquals(FireAll(s, events, d, cells).0.lastValue, w)
    decreases |events|
  {
    if |events| > 0 {
      var (s1, fired) := Fire(s, events[0], d, cells[0]);
      var v := s1.lastValue;
      assert StrictEquals(v, w) by {
        StrictEqualsLaws(s.lastValue, s.lastValue, s.lastValue);
        if !IsFastPath(s, Undefined, events[0].age) {
          var raw := d.fn(s.lastParameters, events[0].source);
          assert Effective(s, Undefined) == s.lastParameters;
          if StrictEquals(raw, s.selector.lastState) {
            CacheHit(s.selector, raw, d.model, cells[0]);
          } else {
            CacheMiss(s.selector, raw, d.model, cells[0]);
          }
        }
      }
      StrictEqualsLaws(s.lastValue, w, v);
      StrictEqualsLaws(v, w, s.lastValue);
      assert !fired;
      assert forall i :: 0 <= i < |events[1..]| ==> events[1..][i] == events[i + 1];
      QuietWhenDefaultedUnchanged(s1, events[1..], d, cells[1..], w);
    }
  }

  /** The end-to-end run: template `{x: 0, y: 0}`, a derivation returning the
      source, the source `{x: 1}` at age 0 and then `{x: 1, y: 5}` at age 1.
      The first `read()` gives `{x: 1, y: 0}`; after the change the listener
      fires once and the value is `{x: 1, y: 5}`, a different reference; a
      further notification at the same age stays silent. */
  lemma EndToEnd(d: Derivation, env0: Env, env1: Env, c0: Handle, c1: Handle, c2: Handle)
    requires forall p, src :: d.fn(p, src) == src
    requires d.model.Obj? && d.model.props == [("x", Num(0)), ("y", Num(0))]
    requires env0.age == Num(0) && env0.source.Obj? && env0.source.props == [("x", Num(1))]
    requires env1.age == Num(1) && env1.source.Obj? && env1.source.props == [("x", Num(1)), ("y", Num(5))]
    requires env0.source.ref != env1.source.ref && c0 != c1
    ensures var (s1, v1) := ReadStep(Initial, Undefined, env0, d, c0);
      var (s2, fired) := Fire(s1, env1, d, c1);
      var (s3, fired') := Fire(s2, env1, d, c2);
      && v1 == Obj(c0, [("x", Num(1)), ("y", Num(0))])
      && fired
      && s2.lastValue == Obj(c1, [("x", Num(1)), ("y", Num(5))])
      && !StrictEquals(v1, s2.lastValue)
      && !fired' && s3.lastValue == s2.lastValue
  {
    ScenarioDefaults(d.model, env0.source, env1.source, c0, c1);
    Recompute(Initial, Undefined, env0, d, c0);
    var (s1, v1) := ReadStep(Initial, Undefined, env0, d, c0);
    assert s1 == SubscriptionState(Undefined, v1, Num(0), SelectorState(env0.source, v1));
    Recompute(s1, Undefined, env1, d, c1);
    var (s2, v2) := ReadStep(s1, Undefined, env1, d, c1);
    assert v2 == Obj(c1, [("x", Num(1)), ("y", Num(5))]);
    ReadIsStable(s1, Undefined, env1, d, c1, c2);
  }

  /** What the notifier keeps for one `subscribe(listener)`: the resource the
      listener reads and the `notify` callback it may call. */
  datatype Listener = Listener(subscription: Subscription, notify: nat)

  /** The external notifier, reduced to its interface: `getAge()`, the state
      the derivation reads, and a listener registry whose keys serve as the
      unsubscribe handles. */
  class Notifier {
    var age: Value
    var source: Value
    var listeners: map<nat, Listener>
    var nextKey: nat

    ghost predicate Valid()
      reads this
    {
      forall k :: k in listeners ==> k < nextKey
    }

    constructor (age: Value, source: Value)
      ensures Valid()
      ensures this.age == age && this.source == source && listeners == map[]
    {
      this.age := age;
      this.source := source;
      listeners := map[];
      nextKey := 0;
    }

    /** `subscribe(listener)`: registers it under a new handle. */
    method Subscribe(listener: Listener) returns (unsubscribe: nat)
      requires Valid()
      modifies this
      ensures Valid()
      ensures unsubscribe !in old(listeners)
      ensures listeners == old(listeners)[unsubscribe := listener]
      ensures age == old(age) && source == old(source)
    {
      unsubscribe := nextKey;
      listeners := listeners[unsubscribe := listener];
      nextKey := nextKey + 1;
    }
  }

  /** The object `createNotifierSubscription(notifier, token, getNextValue)`
      returns, with the closure's variables as fields. */
  class Subscription {
    const notifier: Notifier
    const selector: ModelSelector
    var lastParameters: Value
    var lastValue: Value
    var lastAge: Value

    function State(): SubscriptionState
      reads this, selector
    {
      SubscriptionState(lastParameters, lastValue, lastAge, selector.State())
    }

    ghost predicate Valid()
      reads this, selector
    {
      Coherent(State())
    }

    /** The selector is built once, from `getNextValue` and `token.model`. */
    constructor (notifier: Notifier, token: Token, getNextValue: (Value, Value) -> Value)
      ensures Valid()
      ensures this.notifier == notifier && fresh(selector)
      ensures selector.fn == getNextValue && selector.model == token.model
      ensures State() == Initial && selector.calls == 0
    {
      this.notifier := notifier;
      selector := new ModelSelector(getNextValue, token.model);
      lastParameters := Undefined;
      lastValue := Undefined;
      lastAge := Undefined;
    }

    /** `read(parameters)`: `undefined` stands for "no argument". `cell` is
        null exactly on the fast path. */
    method Read(parameters: Value) returns (value: Value, ghost cell: Handle?)
      requires Valid()
      modifies this, selector
      ensures Valid()
      ensures cell == null <==> IsFastPath(old(State()), parameters, notifier.age)
      ensures cell != null ==> fresh(cell)
      ensures (State(), value) == ReadStep(old(State()), parameters, Env(notifier.age, notifier.source),
                                           Derivation(selector.fn, selector.model), cell)
      ensures selector.calls == old(selector.calls) + (if cell == null then 0 else 1)
    {
      var params := if parameters.Undefined? then lastParameters else parameters;
      var expired := !StrictEquals(params, lastParameters);
      lastParameters := params;
      var sourceAge := notifier.age;
      if StrictEquals(sourceAge, lastAge) && !expired {
        value, cell := lastValue, null;
        return;
      }
      lastAge := sourceAge;
      ghost var c;
      value, c := selector.Call(params, notifier.source);
      lastValue := value;
      cell := c;
    }

    /** The listener body: `if (lastValue !== read()) notify()`; the result
        says whether `notify` was called. */
    method OnNotify() returns (notified: bool, ghost cell: Handle?)
      requires Valid()
      modifies this, selector
      ensures Valid()
      ensures notified <==> !StrictEquals(old(lastValue), lastValue)
      ensures cell == null <==> IsFastPath(old(State()), Undefined, notifier.age)
      ensures cell != null ==> fresh(cell)
      ensures (State(), notified) == Fire(old(State()), Env(notifier.age, notifier.source),
                                          Derivation(selector.fn, selector.model), cell)
    {
      var before := lastValue;
      var value;
      value, cell := Read(Undefined);
      notified := !StrictEquals(before, value);
    }

    /** `subscribe(notify)`: registers the listener and hands back the
        notifier's own unsubscribe handle. */
    method Subscribe(notify: nat) returns (unsubscribe: nat)
      requires notifier.Valid()
      modifies notifier
      ensures notifier.Valid()
      ensures unsubscribe !in old(notifier.listeners)
      ensures notifier.listeners == old(notifier.listeners)[unsubscribe := Listener(this, notify)]
      ensures notifier.age == old(notifier.age) && notifier.source == old(notifier.source)
    {
      unsubscribe := notifier.Subscribe(Listener(this, notify));
    }
  }
}
