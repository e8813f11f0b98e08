/**
  `createSelectorRegistry` (src/createSelectorRegistry.js): factories kept
  under `token.type`, called afresh on every lookup.
 */
module Registry {
  import opened Values

  /** What `register` may store: a factory, or some other JavaScript value.
      A factory receives the identity for whatever new object it builds. */
  datatype Stored = Factory(make: Handle -> Value) | Plain(value: Value)

  /** The outcome of `getEntity`: `undefined`, the factory's result, or the
      TypeError of calling a truthy value that is not a function. */
  datatype Lookup = Absent | Produced(entity: Value) | NotCallable

  /** The stored value counts as present (`!factory` is false): a function
      always does, any other value unless it is one of JavaScript's falsy values. */
  predicate IsTruthy(stored: Stored)
    ensures stored.Factory? ==> IsTruthy(stored)
    ensures !IsTruthy(stored) <==>
      && stored.Plain?
      && (|| stored.value == Undefined || stored.value == Null || stored.value == Bool(false)
          || stored.value == Num(0) || stored.value == Str(""))
  {
    stored.Factory? || Truthy(stored.value)
  }

  /** `getEntity(token)` on the dictionary `registry`. */
  function Resolve(registry: map<string, Stored>, token: Token, cell: Handle): (r: Lookup)
    ensures r.Absent? <==> token.kind !in registry || !IsTruthy(registry[token.kind])
    ensures r.Produced? <==> token.kind in registry && registry[token.kind].Factory?
  {
    if token.kind !in registry then Absent
    else
      var factory := registry[token.kind];
      if !IsTruthy(factory) then Absent
      else if factory.Factory? then Produced(factory.make(cell))
      else NotCallable
  }

  /** After `register(t, f)` a lookup of `t` calls `f`, whatever was there before. */
  lemma RegisterThenResolve(registry: map<string, Stored>, token: Token,
                            make: Handle -> Value, cell: Handle)
    ensures Resolve(registry[token.kind := Factory(make)], token, cell) == Produced(make(cell))
  {
  }

  /** Registering one type leaves every other type's lookup as it was. */
  lemma RegisterKeepsOthers(registry: map<string, Stored>, token: Token, stored: Stored,
                            other: Token, cell: Handle)
    requires other.kind != token.kind
    ensures Resolve(registry[token.kind := stored], other, cell) == Resolve(registry, other, cell)
  {
  }

  /** The last registration for a type wins. */
  lemma LastRegistrationWins(registry: map<string, Stored>, token: Token, first: Stored,
                             second: Stored, any: Token, cell: Handle)
    ensures Resolve(registry[token.kind := first][token.kind := second], any, cell)
         == Resolve(registry[token.kind := second], any, cell)
  {
  }

  /** Lookup goes by `type` alone: distinct tokens with equal types resolve alike. */
  lemma ByTypeNotIdentity(registry: map<string, Stored>, a: Token, b: Token, cell: Handle)
    requires a.kind == b.kind
    ensures Resolve(registry, a, cell) == Resolve(registry, b, cell)
  {
  }

  /** The object `createSelectorRegistry()` returns, with its dictionary as a field. */
  class SelectorRegistry {
    var registry: map<string, Stored>
    /** The types whose factories were called, in call order. */
    ghost var invocations: seq<string>

    constructor ()
      ensures registry == map[] && invocations == []
    {
      registry := map[];
      invocations := [];
    }

    /** `register(token, factory)`: `registry[token.type] = factory`. */
    method Register(token: Token, factory: Stored)
      modifies this
      ensures registry == old(registry)[token.kind := factory]
      ensures invocations == old(invocations)
    {
      registry := registry[token.kind := factory];
    }

    /** `getEntity(token)`: a missing or falsy entry gives `undefined` without
        calling anything; otherwise the stored factory is called, every time. */
    method GetEntity(token: Token) returns (r: Lookup, ghost cell: Handle)
      modifies this
      ensures fresh(cell)
      ensures r == Resolve(registry, token, cell)
      ensures registry == old(registry)
      ensures invocations == old(invocations) + (if r.Absent? then [] else [token.kind])
    {
      var c := new Handle();
      cell := c;
      if token.kind !in registry || !IsTruthy(registry[token.kind]) {
        return Absent, cell;
      }
      var factory := registry[token.kind];
      invocations := invocations + [token.kind];
      if factory.Factory? {
        r := Produced(factory.make(c));
      } else {
        r := NotCallable;
      }
    }
  }
}
