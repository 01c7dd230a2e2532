/** A named element of a family (src/Elements/BaseElement.php): an identity
    name, an open key/value store and a lock flag. */
module Elements {
  import opened Values
  import opened Errors

  datatype Element = Element(name: string, values: map<string, Value>, locked: bool)

  /** The concrete element class. PHP finds overrides by looking for a method
      `get<Key>` / `set<Key>`; here each class lists them explicitly. A getter
      override computes a value from the element; a setter override computes
      the element's new value map. */
  datatype Kind = Kind(
    className: string,
    getters: map<string, Element -> Value>,
    setters: map<string, (Element, Value) -> map<string, Value>>)

  /** The base class: its only accessor override is the inherited `getName`. */
  function BaseKind(className: string): (k: Kind)
    ensures InheritsGetName(k) && NoSetters(k)
    ensures forall key | key != "name" :: Plain(k, key)
  {
    Kind(className, map["name" := (e: Element) => Str(e.name)], map[])
  }

  /** The class keeps `getName` from the base class. */
  ghost predicate InheritsGetName(k: Kind) {
    "name" in k.getters && forall e :: k.getters["name"](e) == Str(e.name)
  }

  /** The class declares no setter override at all. */
  predicate NoSetters(k: Kind) {
    k.setters.Keys == {}
  }

  /** Neither a getter nor a setter override exists for `key`. */
  predicate Plain(k: Kind, key: string) {
    key !in k.getters && key !in k.setters
  }

  /** `has`: the key is stored in the value map. */
  predicate Has(e: Element, key: string) {
    key in e.values
  }

  /** `get`: getter override, then the identity name, then the stored value. */
  function Get(k: Kind, e: Element, key: string): (r: Result<Value>)
    ensures r.Err? <==> key !in k.getters && key != "name" && !Has(e, key)
    ensures r.Err? ==> r.error == UndefinedAttribute(k.className, e.name, key)
    ensures key in k.getters ==> r == Ok(k.getters[key](e))
    ensures key !in k.getters && key == "name" ==> r == Ok(Str(e.name))
    ensures key !in k.getters && key != "name" && Has(e, key) ==> r == Ok(e.values[key])
  {
    if key in k.getters then Ok(k.getters[key](e))
    else if key == "name" then Ok(Str(e.name))
    else if Has(e, key) then Ok(e.values[key])
    else Err(UndefinedAttribute(k.className, e.name, key))
  }

  /** The part of `set` past the lock guard: delegate to the setter override
      or store the value. Never touches the name or the lock flag. */
  function Store(k: Kind, e: Element, key: string, v: Value): (r: Element)
    ensures r.name == e.name && r.locked == e.locked
    ensures key in k.setters ==> r.values == k.setters[key](e, v)
    ensures key !in k.setters ==> r.values == e.values[key := v]
  {
    if key in k.setters then e.(values := k.setters[key](e, v))
    else e.(values := e.values[key := v])
  }

  /** `set`: refused on a locked element before anything changes. */
  function Set(k: Kind, e: Element, key: string, v: Value): (r: Result<Element>)
    ensures r.Err? <==> e.locked
    ensures r.Err? ==> r.error == LockViolation(e.name, "set")
    ensures r.Ok? ==> r.value == Store(k, e, key, v)
  {
    if e.locked then Err(LockViolation(e.name, "set"))
    else Ok(Store(k, e, key, v))
  }

  /** The constructor body, given the `string` its `$native` parameter
      received: records the name, then stores `native` through `set`. */
  function New(k: Kind, name: string, native: string): (e: Element)
    ensures e.name == name && !e.locked
    ensures "native" !in k.setters ==> e.values == map["native" := Str(native)]
  {
    var blank := Element(name, map[], false);
    assert Set(k, blank, "native", Str(native)).Ok?;
    Store(k, blank, "native", Str(native))
  }

  /** `new Class($name, $native)` for a scalar native: the declared `string`
      parameter rejects null with a TypeError and casts any other scalar. */
  function Construct(k: Kind, name: string, native: Value): (r: Result<Element>)
    ensures r.Err? <==> native.Null?
    ensures r.Err? ==> r.error == ArgumentTypeError
    ensures r.Ok? ==> r.value.name == name && !r.value.locked
    ensures r.Ok? && "native" !in k.setters ==> r.value.values == map["native" := Str(StringOf(native))]
  {
    if native.Null? then Err(ArgumentTypeError) else Ok(New(k, name, StringOf(native)))
  }

  /** The locking hook: a native value is required. */
  function Locking(e: Element): (r: Result<()>)
    ensures r.Err? <==> !Has(e, "native")
    ensures r.Err? ==> r.error == LockViolation(e.name, "native")
  {
    if !Has(e, "native") then Err(LockViolation(e.name, "native")) else Ok(())
  }

  /** `lock`: a locked element stays as it is; otherwise the hook runs first
      and the flag is set only when it succeeds. */
  function Lock(e: Element): (r: Result<Element>)
    ensures r.Err? <==> !e.locked && !Has(e, "native")
    ensures r.Err? ==> r.error == LockViolation(e.name, "native")
    ensures r.Ok? ==> r.value.locked && r.value.name == e.name && r.value.values == e.values
  {
    if e.locked then Ok(e)
    else
      match Locking(e)
      case Err(x) => Err(x)
      case Ok(_) => Ok(e.(locked := true))
  }

  /** `__toString`: the canonical string form is the identity name. */
  function ToString(e: Element): string {
    e.name
  }

  /** `__invoke`: a truthy key is looked up, anything else yields the string form. */
  function Invoke(k: Kind, e: Element, key: Option<string>): (r: Result<Value>)
    ensures key.Some? && StringTruthy(key.value) ==> r == Get(k, e, key.value)
    ensures !(key.Some? && StringTruthy(key.value)) ==> r == Ok(Str(e.name))
  {
    if key.Some? && StringTruthy(key.value) then Get(k, e, key.value)
    else Ok(Str(ToString(e)))
  }
}

/** Properties of a single element that relate several of its operations. */
module ElementFacts {
  import opened Values
  import opened Errors
  import opened Elements

  /** After construction the identity name resolves and `native` holds the
      constructor's value, unless the class intercepts `native`; the name
      itself is not a stored key. */
  lemma NewResolvesNameAndNative(k: Kind, name: string, native: string)
    requires "name" !in k.getters || InheritsGetName(k)
    ensures Get(k, New(k, name, native), "name") == Ok(Str(name))
    ensures "native" !in k.setters ==> !Has(New(k, name, native), "name")
    ensures Plain(k, "native") ==> Has(New(k, name, native), "native")
    ensures Plain(k, "native") ==> Get(k, New(k, name, native), "native") == Ok(Str(native))
  {
  }

  /** Building an element from a scalar: `get("native")` reads back the
      scalar's string form, so an integer 5 reads back as "5" and true as
      "1"; null is refused. */
  lemma ConstructedNativeIsCast(k: Kind, name: string, native: Value)
    requires Plain(k, "native")
    ensures Construct(k, name, native).Ok? <==> !native.Null?
    ensures Construct(k, name, native).Ok? ==>
      Get(k, Construct(k, name, native).value, "native") == Ok(Str(StringOf(native)))
    ensures Construct(k, name, Int(5)).Ok? && Get(k, Construct(k, name, Int(5)).value, "native") == Ok(Str("5"))
    ensures Construct(k, name, Bool(true)).Ok? && Get(k, Construct(k, name, Bool(true)).value, "native") == Ok(Str("1"))
  {
    assert StringOf(Int(5)) == "5";
  }

  /** `get()` defaults to "name", and with the inherited `getName` the
      identity name wins even over a value stored under "name". */
  lemma NameIgnoresStoredValue(k: Kind, e: Element, v: Value)
    requires InheritsGetName(k) && "name" !in k.setters && !e.locked
    ensures Set(k, e, "name", v).Ok?
    ensures Has(Set(k, e, "name", v).value, "name")
    ensures Get(k, Set(k, e, "name", v).value, "name") == Ok(Str(e.name))
  {
  }

  /** Without a getter override, `get` yields the stored value exactly when
      `has` holds, and otherwise an error naming the element and the key. */
  lemma GetStoredIffHas(k: Kind, e: Element, key: string)
    requires key !in k.getters && key != "name"
    ensures Get(k, e, key).Ok? <==> Has(e, key)
    ensures Has(e, key) ==> Get(k, e, key).value == e.values[key]
    ensures !Has(e, key) ==> Get(k, e, key) == Err(UndefinedAttribute(k.className, e.name, key))
  {
  }

  /** `set` on an unlocked element makes `get` return the new value and
      leaves every other stored key as it was. */
  lemma SetThenGet(k: Kind, e: Element, key: string, v: Value)
    requires !e.locked && Plain(k, key) && key != "name"
    ensures Set(k, e, key, v).Ok?
    ensures Get(k, Set(k, e, key, v).value, key) == Ok(v)
    ensures forall x | x != key && x !in k.getters :: Get(k, Set(k, e, key, v).value, x) == Get(k, e, x)
  {
    var e' := Set(k, e, key, v).value;
    forall x | x != key && x !in k.getters
      ensures Get(k, e', x) == Get(k, e, x)
    {
      assert Has(e', x) <==> Has(e, x);
    }
  }

  /** Once locked, an element refuses every `set` and locking again is a no-op. */
  lemma LockedIsFrozen(e: Element, k: Kind, key: string, v: Value)
    requires Lock(e).Ok?
    ensures Set(k, Lock(e).value, key, v) == Err(LockViolation(e.name, "set"))
    ensures Lock(Lock(e).value) == Lock(e)
  {
  }

  /** `has` after `set`: storing a key without a setter override adds
      exactly that key and keeps every other one. */
  lemma SetAddsKey(k: Kind, e: Element, key: string, v: Value, x: string)
    requires !e.locked && key !in k.setters
    ensures Set(k, e, key, v).Ok?
    ensures Has(Set(k, e, key, v).value, x) <==> x == key || Has(e, x)
    ensures x != key && Has(e, x) ==> Set(k, e, key, v).value.values[x] == e.values[x]
  {
  }

  /** For a class inheriting `getName`, the identity name is what `getName`
      returns, what `__toString` gives, and what a failed `get` reports. */
  lemma NameIsGetName(k: Kind, e: Element, key: string)
    requires InheritsGetName(k)
    ensures Get(k, e, "name") == Ok(Str(ToString(e)))
    ensures Get(k, e, key).Err? ==> Get(k, e, key).error == UndefinedAttribute(k.className, ToString(e), key)
  {
  }

  /** Invoking without a truthy key gives the name, which is also the string
      form and what `get()` returns. */
  lemma InvokeWithoutKeyIsName(k: Kind, e: Element, key: Option<string>)
    requires InheritsGetName(k)
    requires key.None? || !StringTruthy(key.value)
    ensures Invoke(k, e, key) == Ok(Str(ToString(e)))
    ensures Invoke(k, e, key) == Get(k, e, "name")
  {
  }
}
