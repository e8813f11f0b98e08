# registry-hooks resource layer, modelled in Dafny

This project models the core of a small memoising "resource" layer for
JavaScript UIs and proves properties of that model. The core has three
pieces:

- `applyModel` does one-level defaulting of a derived value against a
  template (the token's `model`). It returns the derived value itself for an
  absent template, a `null` value, a primitive of the template's `typeof`,
  and an array against an array template. A keyed-object template always
  gives a new object, even when no property needed a default.
- `createSelectorWithModel` puts a one-slot cache in front of `applyModel`.
  The cache is keyed by the identity (`===`) of the raw value the derivation
  returns.
- `createNotifierSubscription` builds a resource with `read(parameters)` and
  `subscribe(notify)`. `read` skips recomputation when the notifier's age and
  the parameters reference are unchanged. `subscribe` calls `notify` only when
  the value read changes identity.
- `createSelectorRegistry` maps `token.type` to a factory. The last
  registration wins, and every lookup calls the factory afresh.

Files:

- `values.dfy` (module `Values`): JavaScript values as a datatype. Arrays
  and objects carry a `Handle`, an empty class whose object identity stands
  for the JavaScript reference. `===` is `StrictEquals`. This module also has
  `typeof`, truthiness and property lookup.
- `defaulting.dfy` (module `Defaulting`): `applyModel` and its laws.
- `selectors.dfy` (module `Selectors`): the selector's state as a step
  function `SelectorCall`, and the closure as class `ModelSelector`.
- `subscriptions.dfy` (module `Subscriptions`): `read` as the step function
  `ReadStep` and the listener as `Fire`. Class `Subscription` holds the
  closure's variables, and class `Notifier` is the external notifier's
  interface.
- `registry.dfy` (module `Registry`): the lookup as `Resolve`, and the
  dictionary as class `SelectorRegistry`.

`ModelSelector.Call`, `Subscription.Read`, `Subscription.OnNotify` and
`SelectorRegistry.GetEntity` are each proved against a step function. The
lemmas about sequences of calls are stated on those functions.
`Notifier.Subscribe`, `Subscription.Subscribe` and `SelectorRegistry.Register`
have no step function: their contracts state the new state directly.

Modelling choices:

- A new object built by defaulting (`model.slice()`, `{ ...model }`, the
  result of the `reduce`) gets the identity `cell`. `ModelSelector.Call`
  allocates that identity with `new Handle()`, so it is fresh.
- The derivation `getNextValue` is a Dafny function of the parameters and
  of the notifier's external state (`source`).
- `read(undefined)` counts as `read()`: a JavaScript default parameter also
  applies to an explicit `undefined`.
- On a primitive `result`, the keyed branch of `applyModel` looks up
  `result[key]` as `undefined`. On an array `result`, it finds elements by
  canonical index and finds `"length"`. It never reaches the prototype chain.
- `getEntity` on a truthy stored value that is not a function gives
  `NotCallable`. It stands for the TypeError that `factory()` throws there.
- A first selector call whose derivation returns `undefined` hits the cache,
  because the cache starts as `undefined`. It returns `undefined`, not the
  template's default. `FirstUndefinedIsNotDefaulted` proves this behaviour,
  and the rest of the model keeps it.

## Model

| member | source | states |
|---|---|---|
| `Values.TypeOf` | src/createSelectorWithModel.js:8-9 | `typeof` is "undefined" exactly for `undefined`, and "object" exactly for `null`, arrays and objects |
| `Values.IsPrimitive` | src/createSelectorWithModel.js:1-2 | `isPrimitive` holds exactly for strings, numbers and booleans |
| `Values.Get` | src/createSelectorWithModel.js:24-25 | `v[key]` is an object's own property (`undefined` when missing), an array's element at a canonical index in range or its `length`, and `undefined` on any other value |
| `Values.Truthy` | src/createSelectorRegistry.js:9 | a value is falsy exactly when it is `undefined`, `null`, `false`, `0` or `""` |
| `Registry.IsTruthy` | src/createSelectorRegistry.js:9 | a stored function is always truthy; any other stored value is falsy exactly when it is one of the falsy values |
| `Defaulting.Put` | src/createSelectorWithModel.js:27-29 | the object spread `{...acc, [key]: v}` keeps an existing key in place and appends a new key; afterwards `key` holds `v` and every other key holds what it held before |
| `Defaulting.PutKeys` | src/createSelectorWithModel.js:27-29 | after the object spread, the keys are those of `acc` plus `key` |
| `Defaulting.Pick` | src/createSelectorWithModel.js:24-29 | the value kept under `key` is `result[key]` or `model[key]`, and is `undefined` only when both are |
| `Defaulting.Merge` | src/createSelectorWithModel.js:23-30 | the `reduce` over a key list gives an object whose keys are exactly the listed ones |
| `Defaulting.MergeShape` | src/createSelectorWithModel.js:23-30 | the `reduce` over a key list without repeats produces exactly those keys in order, each holding `result[key]`, or the template's value when that is `undefined` |
| `Defaulting.ApplyModel` | src/createSelectorWithModel.js:4-31 | the output is the result itself, the template itself, or a new array or object carrying the fresh identity |
| `Defaulting.AbsentModel` | src/createSelectorWithModel.js:5 | an `undefined` or `null` template returns the result unchanged (same reference) |
| `Defaulting.NullResult` | src/createSelectorWithModel.js:6 | a `null` result is returned as `null` for every template |
| `Defaulting.PrimitiveModel` | src/createSelectorWithModel.js:11-15 | with a primitive template, the output has the template's `typeof`; a result of that type passes through, and any other result (`undefined` included) gives the template |
| `Defaulting.ArrayModel` | src/createSelectorWithModel.js:16-20 | with an array template, an array result passes through with no per-element merge; any other result gives a copy of the template with equal elements and the new identity |
| `Defaulting.KeyedModelUndefined` | src/createSelectorWithModel.js:22 | with a keyed template, an `undefined` result gives a shallow copy of the template under a new identity |
| `Defaulting.KeyedModelMerge` | src/createSelectorWithModel.js:23-30 | with a keyed template and a defined result, the output is a new object whose keys are exactly the template's, in order; each value is `result[key]` unless that is `undefined`, else the template's; keys only in the result are dropped |
| `Defaulting.IdentityPreserved` | src/createSelectorWithModel.js:4-31 | the output is `===` to the result if and only if the result already conforms to the template |
| `Defaulting.Idempotent` | src/createSelectorWithModel.js:4-31 | defaulting an already defaulted value changes nothing, except that a keyed template rebuilds the object under a new identity with the same properties |
| `Defaulting.DefaultIsDefined` | src/createSelectorWithModel.js:11-22 | with a template present, defaulting `undefined` never gives `undefined` |
| `Selectors.SelectorCall` | src/createSelectorWithModel.js:36-42 | after every call, the cached result is the value returned, and the cached raw value is `===` to the derivation's output |
| `Selectors.CacheHit` | src/createSelectorWithModel.js:38 | a raw value `===` to the cached one returns the cached result and changes no state (`applyModel` does not run) |
| `Selectors.CacheMiss` | src/createSelectorWithModel.js:39-41 | any other raw value becomes `lastState`; its defaulted form becomes `lastResult` and is returned |
| `Selectors.RepeatIsStable` | src/createSelectorWithModel.js:38-41 | two consecutive calls whose raw values are `===` return the same reference, and the second changes no state |
| `Selectors.FirstUndefinedIsNotDefaulted` | src/createSelectorWithModel.js:34-38 | a first call whose derivation returns `undefined` returns `undefined` and leaves the cache unset, although defaulting would have produced a value |
| `Selectors.ModelSelector.constructor` | src/createSelectorWithModel.js:33-35 | the selector keeps `fn` and `model`; `lastState` and `lastResult` start `undefined` |
| `Selectors.ModelSelector.Call` | src/createSelectorWithModel.js:36-42 | one call follows `SelectorCall` on `fn(parameters)`; it counts one call, and one `applyModel` run exactly on a cache miss |
| `Subscriptions.Effective` | src/createNotifierSubscription.js:9 | the parameters `read` uses are the argument when one is given, else the previous parameters; they are `undefined` only when both are |
| `Subscriptions.ReadStep` | src/createNotifierSubscription.js:9-19 | after any `read(p)`, `lastParameters` is `p` (or the previous parameters when `p` is absent), the value returned is the new `lastValue`, `lastAge` is `===` to the current age, and `lastValue` stays equal to the selector's cached result |
| `Subscriptions.FastPath` | src/createNotifierSubscription.js:13-15 | at an unchanged age with the same parameters reference, `read` returns the old `lastValue`, keeps `lastAge` and does not touch the selector |
| `Subscriptions.Recompute` | src/createNotifierSubscription.js:16-18 | otherwise `read` records the age and stores as `lastValue` the result of one selector call on the derivation's output |
| `Subscriptions.ReadWithoutParameters` | src/createNotifierSubscription.js:9-10 | `read()` is never expired: it takes the fast path exactly when the age is unchanged |
| `Subscriptions.NewParametersRecompute` | src/createNotifierSubscription.js:10 | a parameters reference not `===` to the last one always forces a fresh derivation |
| `Subscriptions.ReadIsStable` | src/createNotifierSubscription.js:15 | reading again with the same parameters at the same age takes the fast path and returns the identical value with the state unchanged |
| `Subscriptions.RepeatedReadsAgree` | src/createNotifierSubscription.js:9-19 | any number of repeated reads at one age with one parameters reference leave the state that the first read produced |
| `Subscriptions.Fire` | src/createNotifierSubscription.js:24-26 | the listener calls `notify` exactly when the value `read()` returns is not `===` to the `lastValue` held before that read; it keeps the parameters and the value stays the selector's cached result |
| `Subscriptions.QuietWhenRawUnchanged` | src/createNotifierSubscription.js:24-26 | when the derivation keeps returning the raw value the selector holds, any number of notifier firings call `notify` zero times and keep the value |
| `Subscriptions.FireAll` | src/createNotifierSubscription.js:24-26 | over a run of notifications, `notify` is called at most once per notification; the parameters stay those of the last explicit `read`, the value stays the selector's cached result, and a run with no `notify` call ends with a value `===` to the one it started with |
| `Subscriptions.QuietWhenDefaultedUnchanged` | src/createNotifierSubscription.js:24-26 | when the raw value changes but its defaulted form stays `===` to the value held, any number of notifier firings call `notify` zero times and the value held stays `===` to the old one |
| `Defaulting.TwoKeyMerge` | src/createSelectorWithModel.js:23-30 | a two-key template yields exactly those two keys with the values the merge picks |
| `Defaulting.ScenarioDefaults` | src/createSelectorWithModel.js:23-30 | template `{x: 0, y: 0}` gives `{x: 1, y: 0}` for `{x: 1}` and `{x: 1, y: 5}` for `{x: 1, y: 5}` |
| `Subscriptions.EndToEnd` | src/createNotifierSubscription.js:9-26 | first `read()` gives `{x: 1, y: 0}`; after the source changes at a new age, the listener fires once and the value is `{x: 1, y: 5}` with a new identity; a repeat notification stays silent |
| `Subscriptions.Subscription.constructor` | src/createNotifierSubscription.js:3-8 | the selector is built once, from `getNextValue` and `token.model`; all cached variables start `undefined` |
| `Subscriptions.Subscription.Read` | src/createNotifierSubscription.js:9-19 | `read` follows `ReadStep` and calls the selector exactly once off the fast path and never on it |
| `Subscriptions.Subscription.OnNotify` | src/createNotifierSubscription.js:24-26 | the listener body follows `Fire`; it reports a `notify` call exactly when `lastValue` changed identity |
| `Subscriptions.Subscription.Subscribe` | src/createNotifierSubscription.js:23-27 | registers one listener for this resource and `notify` with the notifier, and returns the notifier's own unsubscribe handle |
| `Subscriptions.Notifier.Subscribe` | src/createNotifierSubscription.js:24 | the notifier's interface: a listener is stored under a new handle, and age and state are unchanged |
| `Registry.Resolve` | src/createSelectorRegistry.js:7-11 | a lookup gives `undefined` exactly when the type is missing or its entry is falsy; it calls a factory exactly when one is stored |
| `Registry.RegisterThenResolve` | src/createSelectorRegistry.js:4-10 | after `register(t, f)`, a lookup of `t.type` calls `f` and returns its result |
| `Registry.RegisterKeepsOthers` | src/createSelectorRegistry.js:5 | registering one type leaves every other type's lookup unchanged |
| `Registry.LastRegistrationWins` | src/createSelectorRegistry.js:5 | re-registering a type overwrites the earlier entry |
| `Registry.ByTypeNotIdentity` | src/createSelectorRegistry.js:5-8 | distinct tokens with equal `type` resolve alike |
| `Registry.SelectorRegistry.constructor` | src/createSelectorRegistry.js:1-2 | the dictionary starts empty |
| `Registry.SelectorRegistry.Register` | src/createSelectorRegistry.js:4-6 | writes `factory` under `token.type` and changes nothing else |
| `Registry.SelectorRegistry.GetEntity` | src/createSelectorRegistry.js:7-11 | follows `Resolve` and leaves the dictionary unchanged; every non-absent lookup invokes the stored value again, with no caching |

## Left out

- The UI hook in `src/useResource.js`: React render plumbing and a call to the external `shallow-equal` package. It is not part of this model.
- `rollup.config.js`: build configuration.
- The notifier's own implementation. `Notifier` models only its interface: an age, the state derivations read, and a listener registry whose keys are the unsubscribe handles. The order and re-entrancy of listener calls, unsubscribing, and its idempotence belong to the notifier and are not modelled.
- Exceptions thrown by `getAge()`, `subscribe` or the derivation. Derivations are total functions here.
- Numbers are unbounded integers. Floating point, `NaN` (never `===` to itself) and `-0` are not modelled.
- `typeof` results other than undefined, object, string, number and boolean: functions, symbols and bigints are outside the value domain.
- `Defaulting.ApplyModel`: in the keyed branch, a string result's indexed characters and `length`, and any property inherited through a prototype chain, read as `undefined`. The source would read them.
- `Registry.Resolve`: a `type` whose name is an inherited property of plain objects (such as `toString`) is treated as missing. `token.type` is taken to be a string already; the source would coerce any value to a property key.
- The ordering rule that puts integer-like keys first in `Object.keys` is not modelled. A property list is taken to be in enumeration order already.
- In-place mutation of derived objects is not modelled. A `Value`'s contents are a snapshot taken when the derivation returns. On a cache hit, `SelectorCall` keeps the older snapshot, while in JavaScript the cached reference would show any later mutation.
- A derivation that allocates a new object on every call is modelled only as one whose result depends on its inputs. The selector's identity check then sees equal inputs as equal references.
