/** The element registry of one family (src/Elements/BaseManager.php):
    elements by name in insertion order, family-wide definitions, a lock. */
module Managers {
  import opened Values
  import opened Errors
  import opened OrderedMaps
  import E = Elements

  datatype Manager = Manager(
    elements: OrderedMap<E.Element>,
    definitions: OrderedMap<Value>,
    locked: bool)

  /** PHP mutates the manager in place, so an exception leaves behind the
      effects performed before it: a step carries the state either way. */
  datatype Step<T> = Step(state: Manager, result: Result<T>)

  /** The state reached by a walk over the elements that may stop on an error. */
  datatype Partial = Partial(elements: OrderedMap<E.Element>, error: Option<Error>)

  /** Each stored element is filed under its own name. */
  ghost predicate NamesMatch(els: OrderedMap<E.Element>) {
    forall n | n in els.entries :: els.entries[n].name == n
  }

  ghost predicate Valid(m: Manager) {
    m.elements.Valid() && m.definitions.Valid() && NamesMatch(m.elements)
  }

  /** Every element carries every defined key. */
  ghost predicate Complete(m: Manager) {
    forall n, d | n in m.elements.entries && d in m.definitions.entries ::
      E.Has(m.elements.entries[n], d)
  }

  /** The value a definition gives an element lacking the key: its default,
      or the element's own name when the default is null (`??`). */
  function DefaultFor(default: Value, name: string): (v: Value)
    ensures v != Null
    ensures default != Null ==> v == default
    ensures default == Null ==> v == Str(name)
  {
    if default == Null then Str(name) else default
  }

  /** `native ?: name` from `create`, passed to the constructor's `string`
      parameter: a truthy native is cast to a string, anything falsy becomes
      the name. */
  function NativeFor(name: string, native: Value): (v: Value)
    ensures v.Str?
    ensures Truthy(native) ==> v == Str(StringOf(native)) && Truthy(v)
    ensures !Truthy(native) ==> v == Str(name)
    ensures Truthy(native) && native.Str? ==> v == native
  {
    if Truthy(native) then Str(StringOf(native)) else Str(name)
  }

  function Empty(): (m: Manager)
    ensures Valid(m) && Complete(m) && !m.locked
    ensures m.elements.keys == [] && m.definitions.keys == []
  {
    Manager(OrderedMaps.Empty(), OrderedMaps.Empty(), false)
  }

  /** `has` */
  predicate Has(m: Manager, name: string) {
    name in m.elements.entries
  }

  /** `get`: the registered element, or an error naming the family and the name. */
  function Get(k: E.Kind, m: Manager, name: string): (r: Result<E.Element>)
    ensures r.Ok? <==> Has(m, name)
    ensures r.Ok? ==> r.value == m.elements.entries[name]
    ensures r.Ok? && Valid(m) ==> r.value.name == name
    ensures r.Err? ==> r.error == UnknownElement(k.className, name)
  {
    if Has(m, name) then Ok(m.elements.entries[name])
    else Err(UnknownElement(k.className, name))
  }

  /** `all`: the elements in insertion order. */
  function All(m: Manager): (r: seq<E.Element>)
    requires Valid(m)
    ensures |r| == |m.elements.keys| == |m.elements.entries|
    ensures forall i | 0 <= i < |r| :: r[i].name == m.elements.keys[i]
    ensures forall i | 0 <= i < |r| :: Has(m, r[i].name) && m.elements.entries[r[i].name] == r[i]
  {
    CountMatchesOrder(m.elements);
    InOrder(m.elements)
  }

  /** `count` */
  function Count(m: Manager): (n: nat)
    requires Valid(m)
    ensures n == |m.elements.entries| == |All(m)|
  {
    CountMatchesOrder(m.elements);
    |m.elements.keys|
  }

  /** `$element->native === $native`, read through the element's `get`. */
  predicate NativeIs(k: E.Kind, e: E.Element, native: string) {
    E.Get(k, e, "native") == Ok(Str(native))
  }

  /** The scan of `find` over the names still to visit. */
  function FindIn(k: E.Kind, els: OrderedMap<E.Element>, todo: seq<string>, native: string): (r: Result<E.Element>)
    requires forall n | n in todo :: n in els.entries
    ensures r.Ok? ==> NativeIs(k, r.value, native)
    ensures r.Ok? ==> exists n | n in todo :: els.entries[n] == r.value
    decreases |todo|
  {
    if |todo| == 0 then Err(UnknownNativeElement(k.className, native))
    else
      var e := els.entries[todo[0]];
      match E.Get(k, e, "native")
      case Err(x) => Err(x)
      case Ok(v) => if v == Str(native) then Ok(e) else FindIn(k, els, todo[1..], native)
  }

  /** `find`: the first element, in insertion order, whose native is `native`. */
  function Find(k: E.Kind, m: Manager, native: string): (r: Result<E.Element>)
    requires Valid(m)
    ensures r.Ok? ==> NativeIs(k, r.value, native) && Has(m, r.value.name)
  {
    FindIn(k, m.elements, m.elements.keys, native)
  }

  /** Walks the definitions in order and gives the element each key it lacks. */
  function Seed(k: E.Kind, e: E.Element, defs: OrderedMap<Value>, todo: seq<string>): (r: Result<E.Element>)
    requires forall d | d in todo :: d in defs.entries
    ensures r.Ok? ==> r.value.name == e.name && r.value.locked == e.locked
    ensures r.Err? ==> e.locked && r.error == LockViolation(e.name, "set")
    decreases |todo|
  {
    if |todo| == 0 then Ok(e)
    else if E.Has(e, todo[0]) then Seed(k, e, defs, todo[1..])
    else
      match E.Set(k, e, todo[0], DefaultFor(defs.entries[todo[0]], e.name))
      case Err(x) => Err(x)
      case Ok(e') => Seed(k, e', defs, todo[1..])
  }

  /** `set($element)`: file the element under its name (replacing in place),
      then seed the definitions it lacks. No lock check of the manager. */
  function Register(k: E.Kind, m: Manager, e: E.Element): (s: Step<()>)
    requires Valid(m)
    ensures Valid(s.state) && Has(s.state, e.name)
    ensures s.state.definitions == m.definitions && s.state.locked == m.locked
    ensures s.state.elements.keys == if Has(m, e.name) then m.elements.keys else m.elements.keys + [e.name]
    ensures s.state.elements.entries == m.elements.entries[e.name := s.state.elements.entries[e.name]]
    ensures s.result.Err? ==> e.locked && s.state.elements.entries[e.name] == e
    ensures s.result.Ok? ==> s.state.elements.entries[e.name].locked == e.locked
  {
    var filed := Put(m.elements, e.name, e);
    match Seed(k, e, m.definitions, m.definitions.keys)
    case Err(x) => Step(m.(elements := filed), Err(x))
    case Ok(e') => Step(m.(elements := Put(m.elements, e.name, e')), Ok(()))
  }

  /** `create`: refused when locked; otherwise build and register a fresh element. */
  function Create(k: E.Kind, m: Manager, name: string, native: Value): (s: Step<E.Element>)
    requires Valid(m)
    ensures Valid(s.state) && s.state.locked == m.locked && s.state.definitions == m.definitions
    ensures m.locked ==> s == Step(m, Err(LockViolation(k.className, "create")))
    ensures !m.locked ==> s.result.Ok? && Has(s.state, name) && s.result.value == s.state.elements.entries[name]
    ensures !m.locked ==> s.result.value.name == name && !s.result.value.locked
    ensures !m.locked ==> s.state.elements.keys == if Has(m, name) then m.elements.keys else m.elements.keys + [name]
    ensures !m.locked ==> s.state.elements.entries == m.elements.entries[name := s.result.value]
  {
    if m.locked then Step(m, Err(LockViolation(k.className, "create")))
    else
      var s := Register(k, m, E.New(k, name, NativeFor(name, native).s));
      match s.result
      case Err(x) => Step(s.state, Err(x))
      case Ok(_) => Step(s.state, Ok(s.state.elements.entries[name]))
  }

  /** `getOrCreate` */
  function GetOrCreate(k: E.Kind, m: Manager, name: string): (s: Step<E.Element>)
    requires Valid(m)
    ensures Valid(s.state)
    ensures Has(m, name) ==> s == Step(m, Ok(m.elements.entries[name]))
    ensures !Has(m, name) ==> s == Create(k, m, name, Null)
  {
    if Has(m, name) then Step(m, Get(k, m, name)) else Create(k, m, name, Null)
  }

  /** `$element->set($key, $value)` on the registered element `name`. */
  function SetOn(k: E.Kind, m: Manager, name: string, key: string, v: Value): (s: Step<()>)
    requires Valid(m) && Has(m, name)
    ensures Valid(s.state) && s.state.locked == m.locked && s.state.definitions == m.definitions
    ensures s.state.elements.keys == m.elements.keys
    ensures s.result.Err? <==> m.elements.entries[name].locked
    ensures s.result.Ok? ==> s.state.elements.entries == m.elements.entries[name := E.Store(k, m.elements.entries[name], key, v)]
    ensures s.result.Err? ==> s.state == m
  {
    match E.Set(k, m.elements.entries[name], key, v)
    case Err(x) => Step(m, Err(x))
    case Ok(e') => Step(m.(elements := Put(m.elements, name, e')), Ok(()))
  }

  /** One attribute map of the associative shape, applied pair by pair. */
  function SetPairs(k: E.Kind, m: Manager, name: string, pairs: seq<(string, Value)>): (s: Step<()>)
    requires Valid(m) && Has(m, name)
    ensures Valid(s.state) && Has(s.state, name) && s.state.locked == m.locked
    ensures s.state.definitions == m.definitions && s.state.elements.keys == m.elements.keys
    ensures s.state.elements.entries == m.elements.entries[name := s.state.elements.entries[name]]
    ensures !m.elements.entries[name].locked ==> s.result.Ok? && !s.state.elements.entries[name].locked
    decreases |pairs|
  {
    if |pairs| == 0 then Step(m, Ok(()))
    else
      var s := SetOn(k, m, name, pairs[0].0, pairs[0].1);
      if s.result.Err? then s
      else
        var r := SetPairs(k, s.state, name, pairs[1..]);
        Overwrite(m.elements.entries, name, s.state.elements.entries[name], r.state.elements.entries[name]);
        r
  }

  /** The bulk configuration input, resolved by the caller (`Arr::isAssoc`
      and `is_array` in the source). */
  datatype Entry = NativeValue(native: Value) | Attributes(pairs: seq<(string, Value)>)
  datatype Defaults = Names(names: seq<string>) | Assoc(entries: seq<(string, Entry)>)

  /** The list shape: create each name. */
  function SetNames(k: E.Kind, m: Manager, names: seq<string>): (s: Step<()>)
    requires Valid(m)
    ensures Valid(s.state) && s.state.locked == m.locked && s.state.definitions == m.definitions
    ensures m.locked && |names| > 0 ==> s == Step(m, Err(LockViolation(k.className, "create")))
    ensures !m.locked ==> s.result.Ok?
    ensures forall n | Has(m, n) :: Has(s.state, n)
    decreases |names|
  {
    if |names| == 0 then Step(m, Ok(()))
    else
      var c := Create(k, m, names[0], Null);
      if c.result.Err? then Step(c.state, Err(c.result.error))
      else SetNames(k, c.state, names[1..])
  }

  /** One entry of the associative shape: create the name, then apply its
      attribute map or store its scalar as `native`. */
  function ApplyEntry(k: E.Kind, m: Manager, name: string, entry: Entry): (s: Step<()>)
    requires Valid(m)
    ensures Valid(s.state) && s.state.locked == m.locked && s.state.definitions == m.definitions
    ensures m.locked ==> s == Step(m, Err(LockViolation(k.className, "create")))
    ensures !m.locked ==> s.result.Ok? && Has(s.state, name)
    ensures forall n | Has(m, n) :: Has(s.state, n)
  {
    var c := Create(k, m, name, Null);
    if c.result.Err? then Step(c.state, Err(c.result.error))
    else
      match entry
      case NativeValue(v) => SetOn(k, c.state, name, "native", v)
      case Attributes(pairs) => SetPairs(k, c.state, name, pairs)
  }

  /** The associative shape, entry by entry. */
  function SetAssoc(k: E.Kind, m: Manager, entries: seq<(string, Entry)>): (s: Step<()>)
    requires Valid(m)
    ensures Valid(s.state) && s.state.locked == m.locked && s.state.definitions == m.definitions
    ensures m.locked && |entries| > 0 ==> s == Step(m, Err(LockViolation(k.className, "create")))
    ensures !m.locked ==> s.result.Ok?
    ensures forall n | Has(m, n) :: Has(s.state, n)
    decreases |entries|
  {
    if |entries| == 0 then Step(m, Ok(()))
    else
      var s := ApplyEntry(k, m, entries[0].0, entries[0].1);
      if s.result.Err? then s else SetAssoc(k, s.state, entries[1..])
  }

  /** `set($array)`: bulk configuration by shape. */
  function BulkSet(k: E.Kind, m: Manager, defaults: Defaults): (s: Step<()>)
    requires Valid(m)
    ensures Valid(s.state) && s.state.locked == m.locked && s.state.definitions == m.definitions
    ensures !m.locked ==> s.result.Ok?
  {
    match defaults
    case Names(names) => SetNames(k, m, names)
    case Assoc(entries) => SetAssoc(k, m, entries)
  }

  /** The constructor: bulk configuration of an empty manager. */
  function New(k: E.Kind, defaults: Defaults): (s: Step<()>)
    ensures Valid(s.state) && Complete(s.state) && !s.state.locked && s.result.Ok?
    ensures s.state.definitions.keys == []
  {
    BulkSet(k, Empty(), defaults)
  }

  /** `doesDefine` uses `isset`: a definition with a null default does not count. */
  predicate DoesDefine(m: Manager, name: string) {
    name in m.definitions.entries && m.definitions.entries[name] != Null
  }

  /** `definitions` */
  function Definitions(m: Manager): OrderedMap<Value> {
    m.definitions
  }

  /** One element's share of the backfill: an element lacking the key gets
      the definition's value through its own `set`. */
  function FillIn(k: E.Kind, e: E.Element, key: string, default: Value): (r: Result<E.Element>)
    ensures r.Err? <==> e.locked && !E.Has(e, key)
    ensures r.Ok? ==> r.value.name == e.name && r.value.locked == e.locked
  {
    if E.Has(e, key) then Ok(e) else E.Set(k, e, key, DefaultFor(default, e.name))
  }

  /** The backfill loop of `define`, over the names still to visit. */
  function Backfill(k: E.Kind, els: OrderedMap<E.Element>, todo: seq<string>, key: string, default: Value): (p: Partial)
    requires els.Valid() && NamesMatch(els)
    requires forall n | n in todo :: n in els.entries
    ensures p.elements.Valid() && NamesMatch(p.elements) && p.elements.keys == els.keys
    ensures forall n | n in els.entries && n !in todo :: p.elements.entries[n] == els.entries[n]
    decreases |todo|
  {
    if |todo| == 0 then Partial(els, None)
    else
      match FillIn(k, els.entries[todo[0]], key, default)
      case Err(x) => Partial(els, Some(x))
      case Ok(e') => Backfill(k, Put(els, todo[0], e'), todo[1..], key, default)
  }

  /** `define`: refused when locked; a no-op when already defined (per
      `isset`); otherwise record the definition and backfill the elements. */
  function Define(k: E.Kind, m: Manager, name: string, default: Value): (s: Step<()>)
    requires Valid(m)
    ensures Valid(s.state) && s.state.locked == m.locked && s.state.elements.keys == m.elements.keys
    ensures m.locked ==> s == Step(m, Err(LockViolation(k.className, "define")))
    ensures !m.locked && DoesDefine(m, name) ==> s == Step(m, Ok(()))
    ensures !m.locked && !DoesDefine(m, name) ==> s.state.definitions == Put(m.definitions, name, default)
  {
    if m.locked then Step(m, Err(LockViolation(k.className, "define")))
    else if DoesDefine(m, name) then Step(m, Ok(()))
    else
      var p := Backfill(k, m.elements, m.elements.keys, name, default);
      var m' := Manager(p.elements, Put(m.definitions, name, default), m.locked);
      if p.error.None? then Step(m', Ok(())) else Step(m', Err(p.error.value))
  }

  /** The cascade of the manager's locking hook, over the names still to visit. */
  function LockAll(els: OrderedMap<E.Element>, todo: seq<string>): (p: Partial)
    requires els.Valid() && NamesMatch(els)
    requires forall n | n in todo :: n in els.entries
    ensures p.elements.Valid() && NamesMatch(p.elements) && p.elements.keys == els.keys
    ensures forall n | n in els.entries :: p.elements.entries[n].values == els.entries[n].values
    ensures forall n | n in els.entries && n !in todo :: p.elements.entries[n] == els.entries[n]
    ensures p.error.None? ==> forall n | n in todo :: p.elements.entries[n].locked
    decreases |todo|
  {
    if |todo| == 0 then Partial(els, None)
    else
      match E.Lock(els.entries[todo[0]])
      case Err(x) => Partial(els, Some(x))
      case Ok(e') => LockAll(Put(els, todo[0], e'), todo[1..])
  }

  /** `lock`: a locked manager stays as it is; otherwise every element is
      locked in order, and the manager only when all of them succeeded. */
  function Lock(m: Manager): (s: Step<()>)
    requires Valid(m)
    ensures Valid(s.state) && s.state.definitions == m.definitions && s.state.elements.keys == m.elements.keys
    ensures forall n | Has(m, n) :: s.state.elements.entries[n].values == m.elements.entries[n].values
    ensures s.result.Ok? <==> s.state.locked
    ensures m.locked ==> s == Step(m, Ok(()))
    ensures s.result.Ok? && !m.locked ==> forall n | Has(m, n) :: s.state.elements.entries[n].locked
  {
    if m.locked then Step(m, Ok(()))
    else
      var p := LockAll(m.elements, m.elements.keys);
      if p.error.None? then Step(Manager(p.elements, m.definitions, true), Ok(()))
      else Step(m.(elements := p.elements), Err(p.error.value))
  }
}
