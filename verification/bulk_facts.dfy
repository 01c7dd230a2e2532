/** Properties of the bulk configuration entry point (`set($array)`) and of
    the family-wide invariant that every element carries every definition. */
module BulkFacts {
  import opened Values
  import opened Errors
  import opened OrderedMaps
  import E = Elements
  import opened Managers
  import opened ManagerFacts

  /** An attribute map written over a value map, pair by pair. */
  ghost function Overlay(values: map<string, Value>, pairs: seq<(string, Value)>): map<string, Value>
    decreases |pairs|
  {
    if |pairs| == 0 then values else Overlay(values[pairs[0].0 := pairs[0].1], pairs[1..])
  }

  /** The keys named by an attribute map. */
  ghost function PairKeys(pairs: seq<(string, Value)>): set<string> {
    set i | 0 <= i < |pairs| :: pairs[i].0
  }

  /** A PHP array never repeats a key. */
  ghost predicate UniquePairKeys(pairs: seq<(string, Value)>) {
    forall i, j | 0 <= i < j < |pairs| :: pairs[i].0 != pairs[j].0
  }

  ghost predicate UniqueNames(entries: seq<(string, Entry)>) {
    forall i, j | 0 <= i < j < |entries| :: entries[i].0 != entries[j].0
  }

  ghost function EntryNames(entries: seq<(string, Entry)>): set<string> {
    set i | 0 <= i < |entries| :: entries[i].0
  }

  /** Overlaying writes every pair and keeps every other key. */
  lemma {:induction false} OverlayWritesPairs(values: map<string, Value>, pairs: seq<(string, Value)>)
    requires UniquePairKeys(pairs)
    ensures forall i | 0 <= i < |pairs| :: pairs[i].0 in Overlay(values, pairs) && Overlay(values, pairs)[pairs[i].0] == pairs[i].1
    ensures forall x | x !in PairKeys(pairs) ::
      (x in Overlay(values, pairs) <==> x in values) && (x in values ==> Overlay(values, pairs)[x] == values[x])
    decreases |pairs|
  {
    if |pairs| > 0 {
      var rest := pairs[1..];
      OverlayWritesPairs(values[pairs[0].0 := pairs[0].1], rest);
      assert forall i | 0 <= i < |rest| :: rest[i] == pairs[i + 1];
      assert pairs[0].0 in PairKeys(pairs);
    }
  }

  /** Applying an attribute map to an unlocked registered element overlays
      its values and changes nothing else. */
  lemma {:induction false} SetPairsOverlays(k: E.Kind, m: Manager, name: string, pairs: seq<(string, Value)>)
    requires Valid(m) && Has(m, name) && !m.elements.entries[name].locked && E.NoSetters(k)
    ensures SetPairs(k, m, name, pairs).result.Ok?
    ensures SetPairs(k, m, name, pairs).state.elements.entries[name]
      == m.elements.entries[name].(values := Overlay(m.elements.entries[name].values, pairs))
    decreases |pairs|
  {
    if |pairs| > 0 {
      SetPairsOverlays(k, SetOn(k, m, name, pairs[0].0, pairs[0].1).state, name, pairs[1..]);
    }
  }

  /** The list shape creates each name afresh and touches no other element. */
  lemma {:induction false} SetNamesCreatesEach(k: E.Kind, m: Manager, names: seq<string>)
    requires Valid(m) && !m.locked && E.NoSetters(k)
    ensures forall n | n in names ::
      Has(SetNames(k, m, names).state, n)
      && SetNames(k, m, names).state.elements.entries[n] == FreshElementOf(m.definitions, n, Str(n))
    ensures forall n | n !in names ::
      (Has(SetNames(k, m, names).state, n) <==> Has(m, n))
      && (Has(m, n) ==> SetNames(k, m, names).state.elements.entries[n] == m.elements.entries[n])
    decreases |names|
  {
    if |names| > 0 {
      var n0 := names[0];
      CreateSpec(k, m, n0, Null);
      var c := Create(k, m, n0, Null).state;
      assert c.elements.entries == m.elements.entries[n0 := FreshElementOf(m.definitions, n0, Str(n0))];
      SetNamesCreatesEach(k, c, names[1..]);
      assert forall n | n in names :: n == n0 || n in names[1..];
    }
  }

  /** The element an entry of the associative shape produces. */
  ghost function ConfiguredElementOf(defs: OrderedMap<Value>, name: string, entry: Entry): E.Element {
    match entry
    case NativeValue(v) => FreshElementOf(defs, name, v)
    case Attributes(pairs) =>
      var created := FreshElementOf(defs, name, Str(name));
      created.(values := Overlay(created.values, pairs))
  }

  /** Storing a native over a fresh element's native gives the fresh element with that native. */
  lemma ReplacingFreshNative(defs: OrderedMap<Value>, name: string, v: Value)
    ensures FreshValues(defs, name, Str(name))["native" := v] == FreshValues(defs, name, v)
  {
  }

  /** A scalar entry: the fresh element with that scalar as its native. */
  lemma ApplyNativeSpec(k: E.Kind, m: Manager, name: string, v: Value)
    requires Valid(m) && !m.locked && E.NoSetters(k)
    ensures ApplyEntry(k, m, name, NativeValue(v)).result.Ok?
    ensures ApplyEntry(k, m, name, NativeValue(v)).state.elements.entries
      == m.elements.entries[name := FreshElementOf(m.definitions, name, v)]
  {
    CreateSpec(k, m, name, Null);
    var created := FreshElementOf(m.definitions, name, Str(name));
    ReplacingFreshNative(m.definitions, name, v);
    assert E.Store(k, created, "native", v) == FreshElementOf(m.definitions, name, v);
    Overwrite(m.elements.entries, name, created, FreshElementOf(m.definitions, name, v));
  }

  /** Writing an attribute map over a freshly created element gives the
      configured element in its place. */
  lemma OverlayOnCreated(k: E.Kind, c: Manager, defs: OrderedMap<Value>, name: string, pairs: seq<(string, Value)>)
    requires Valid(c) && Has(c, name) && E.NoSetters(k)
    requires c.elements.entries[name] == FreshElementOf(defs, name, Str(name))
    ensures SetPairs(k, c, name, pairs).result.Ok?
    ensures SetPairs(k, c, name, pairs).state.elements.entries
      == c.elements.entries[name := ConfiguredElementOf(defs, name, Attributes(pairs))]
  {
    SetPairsOverlays(k, c, name, pairs);
  }

  /** An attribute map: the fresh element with the pairs written over it. */
  lemma ApplyAttributesSpec(k: E.Kind, m: Manager, name: string, pairs: seq<(string, Value)>)
    requires Valid(m) && !m.locked && E.NoSetters(k)
    ensures ApplyEntry(k, m, name, Attributes(pairs)).result.Ok?
    ensures ApplyEntry(k, m, name, Attributes(pairs)).state.elements.entries
      == m.elements.entries[name := ConfiguredElementOf(m.definitions, name, Attributes(pairs))]
  {
    var c := Create(k, m, name, Null);
    CreateSpec(k, m, name, Null);
    OverlayOnCreated(k, c.state, m.definitions, name, pairs);
    Overwrite(m.elements.entries, name, c.result.value, ConfiguredElementOf(m.definitions, name, Attributes(pairs)));
  }

  /** One entry of the associative shape yields the configured element and
      touches no other element. */
  lemma ApplyEntrySpec(k: E.Kind, m: Manager, name: string, entry: Entry)
    requires Valid(m) && !m.locked && E.NoSetters(k)
    ensures ApplyEntry(k, m, name, entry).result.Ok?
    ensures ApplyEntry(k, m, name, entry).state.elements.entries
      == m.elements.entries[name := ConfiguredElementOf(m.definitions, name, entry)]
  {
    match entry
    case NativeValue(v) => ApplyNativeSpec(k, m, name, v);
    case Attributes(pairs) => ApplyAttributesSpec(k, m, name, pairs);
  }

  /** The elements the associative shape produces, by name; a later entry
      wins over an earlier one. */
  ghost function ConfiguredOf(defs: OrderedMap<Value>, entries: seq<(string, Entry)>): map<string, E.Element>
    decreases |entries|
  {
    if |entries| == 0 then map[]
    else map[entries[0].0 := ConfiguredElementOf(defs, entries[0].0, entries[0].1)] + ConfiguredOf(defs, entries[1..])
  }

  /** With distinct names, each entry's element is the one produced. */
  lemma {:induction false} ConfiguredAt(defs: OrderedMap<Value>, entries: seq<(string, Entry)>, i: nat)
    requires UniqueNames(entries) && i < |entries|
    ensures entries[i].0 in ConfiguredOf(defs, entries)
    ensures ConfiguredOf(defs, entries)[entries[i].0] == ConfiguredElementOf(defs, entries[i].0, entries[i].1)
    decreases |entries|
  {
    var rest := entries[1..];
    if i == 0 {
      if entries[0].0 in ConfiguredOf(defs, rest) {
        var j := ConfiguredName(defs, rest, entries[0].0);
        assert false;
      }
    } else {
      assert rest[i - 1] == entries[i];
      ConfiguredAt(defs, rest, i - 1);
    }
  }

  /** Every name the associative shape produces comes from some entry. */
  lemma {:induction false} ConfiguredName(defs: OrderedMap<Value>, entries: seq<(string, Entry)>, n: string) returns (j: nat)
    requires n in ConfiguredOf(defs, entries)
    ensures j < |entries| && entries[j].0 == n
    decreases |entries|
  {
    assert ConfiguredOf(defs, entries).Keys == {entries[0].0} + ConfiguredOf(defs, entries[1..]).Keys;
    if n == entries[0].0 {
      j := 0;
    } else {
      var i := ConfiguredName(defs, entries[1..], n);
      j := i + 1;
    }
  }

  /** The associative shape overlays the configured elements on the
      manager's elements and touches no other element. */
  lemma {:induction false} SetAssocConfigures(k: E.Kind, m: Manager, entries: seq<(string, Entry)>)
    requires Valid(m) && !m.locked && E.NoSetters(k)
    ensures SetAssoc(k, m, entries).state.elements.entries == m.elements.entries + ConfiguredOf(m.definitions, entries)
    decreases |entries|
  {
    if |entries| > 0 {
      var name := entries[0].0;
      var c := ConfiguredElementOf(m.definitions, name, entries[0].1);
      ApplyEntrySpec(k, m, name, entries[0].1);
      SetAssocConfigures(k, ApplyEntry(k, m, name, entries[0].1).state, entries[1..]);
      UpdateThenUnion(m.elements.entries, name, c, ConfiguredOf(m.definitions, entries[1..]));
    }
  }

  /** Under the list shape each element's native is its own name. */
  lemma NamesNativeIsName(k: E.Kind, m: Manager, names: seq<string>, n: string)
    requires Valid(m) && !m.locked && E.NoSetters(k) && "native" !in k.getters
    requires n in names
    ensures Has(BulkSet(k, m, Names(names)).state, n)
    ensures E.Get(k, BulkSet(k, m, Names(names)).state.elements.entries[n], "native") == Ok(Str(n))
  {
    SetNamesCreatesEach(k, m, names);
  }

  /** Under the associative shape a scalar becomes the element's native. */
  lemma AssocScalarIsNative(k: E.Kind, m: Manager, entries: seq<(string, Entry)>, i: nat)
    requires Valid(m) && !m.locked && E.NoSetters(k) && "native" !in k.getters
    requires UniqueNames(entries) && i < |entries| && entries[i].1.NativeValue?
    ensures Has(BulkSet(k, m, Assoc(entries)).state, entries[i].0)
    ensures E.Get(k, BulkSet(k, m, Assoc(entries)).state.elements.entries[entries[i].0], "native")
      == Ok(entries[i].1.native)
  {
    var name := entries[i].0;
    var e := ConfiguredElementOf(m.definitions, name, entries[i].1);
    var after := BulkSet(k, m, Assoc(entries)).state.elements.entries;
    assert name in after && after[name] == e by {
      SetAssocConfigures(k, m, entries);
      ConfiguredAt(m.definitions, entries, i);
    }
    assert e.values["native"] == entries[i].1.native;
  }

  /** An attribute map's pairs are stored in the element it configures. */
  lemma ConfiguredStoresPair(defs: OrderedMap<Value>, name: string, pairs: seq<(string, Value)>, j: nat)
    requires UniquePairKeys(pairs) && j < |pairs|
    ensures E.Has(ConfiguredElementOf(defs, name, Attributes(pairs)), pairs[j].0)
    ensures ConfiguredElementOf(defs, name, Attributes(pairs)).values[pairs[j].0] == pairs[j].1
  {
    OverlayWritesPairs(FreshValues(defs, name, Str(name)), pairs);
  }

  /** Under the associative shape every pair of an attribute map reads back
      (the identity name always reads as the name). */
  lemma AssocAttributesReadBack(k: E.Kind, m: Manager, entries: seq<(string, Entry)>, i: nat, j: nat)
    requires Valid(m) && !m.locked && E.NoSetters(k)
    requires UniqueNames(entries) && i < |entries| && entries[i].1.Attributes?
    requires UniquePairKeys(entries[i].1.pairs) && j < |entries[i].1.pairs|
    requires entries[i].1.pairs[j].0 !in k.getters && entries[i].1.pairs[j].0 != "name"
    ensures Has(BulkSet(k, m, Assoc(entries)).state, entries[i].0)
    ensures E.Get(k, BulkSet(k, m, Assoc(entries)).state.elements.entries[entries[i].0], entries[i].1.pairs[j].0)
      == Ok(entries[i].1.pairs[j].1)
  {
    SetAssocConfigures(k, m, entries);
    ConfiguredAt(m.definitions, entries, i);
    ConfiguredStoresPair(m.definitions, entries[i].0, entries[i].1.pairs, j);
  }

  /** Writing one key never removes a key, so every definition stays carried. */
  lemma SetOnKeepsComplete(k: E.Kind, m: Manager, name: string, key: string, v: Value)
    requires Valid(m) && Has(m, name) && E.NoSetters(k) && Complete(m)
    ensures Complete(SetOn(k, m, name, key, v).state)
  {
  }

  lemma {:induction false} SetPairsKeepsComplete(k: E.Kind, m: Manager, name: string, pairs: seq<(string, Value)>)
    requires Valid(m) && Has(m, name) && E.NoSetters(k) && Complete(m)
    ensures Complete(SetPairs(k, m, name, pairs).state)
    decreases |pairs|
  {
    if |pairs| > 0 {
      SetOnKeepsComplete(k, m, name, pairs[0].0, pairs[0].1);
      var s := SetOn(k, m, name, pairs[0].0, pairs[0].1);
      if s.result.Ok? {
        SetPairsKeepsComplete(k, s.state, name, pairs[1..]);
      }
    }
  }

  lemma ApplyEntryKeepsComplete(k: E.Kind, m: Manager, name: string, entry: Entry)
    requires Valid(m) && E.NoSetters(k) && Complete(m)
    ensures Complete(ApplyEntry(k, m, name, entry).state)
  {
    if !m.locked {
      CreateKeepsComplete(k, m, name, Null);
      var c := Create(k, m, name, Null).state;
      match entry
      case NativeValue(v) => SetOnKeepsComplete(k, c, name, "native", v);
      case Attributes(pairs) => SetPairsKeepsComplete(k, c, name, pairs);
    }
  }

  /** Bulk configuration, in either shape, keeps every element carrying every
      definition. */
  lemma {:induction false} BulkSetKeepsComplete(k: E.Kind, m: Manager, defaults: Defaults)
    requires Valid(m) && E.NoSetters(k) && Complete(m)
    ensures Complete(BulkSet(k, m, defaults).state)
    decreases if defaults.Names? then |defaults.names| else |defaults.entries|
  {
    match defaults
    case Names(names) =>
      if |names| > 0 && !m.locked {
        CreateKeepsComplete(k, m, names[0], Null);
        BulkSetKeepsComplete(k, Create(k, m, names[0], Null).state, Names(names[1..]));
      }
    case Assoc(entries) =>
      if |entries| > 0 {
        ApplyEntryKeepsComplete(k, m, entries[0].0, entries[0].1);
        var a := ApplyEntry(k, m, entries[0].0, entries[0].1);
        if a.result.Ok? {
          BulkSetKeepsComplete(k, a.state, Assoc(entries[1..]));
        }
      }
  }

  /** Locking changes flags only, never values. */
  lemma LockKeepsComplete(m: Manager)
    requires Valid(m) && Complete(m)
    ensures Complete(Lock(m).state)
  {
  }
}
