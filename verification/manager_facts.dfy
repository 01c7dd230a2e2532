/** Properties of the registry that relate its operations to each other and
    to the family's definitions. */
module ManagerFacts {
  import opened Values
  import opened Errors
  import opened OrderedMaps
  import E = Elements
  import opened Managers

  /** `after` is `before` with every key of `keys` that `before` lacked given
      its definition's value; keys it had and keys outside `keys` are as before. */
  ghost predicate Seeded(before: E.Element, after: E.Element, defaults: map<string, Value>, keys: seq<string>) {
    && after.name == before.name
    && after.locked == before.locked
    && (forall d | d in keys && d in defaults ::
          E.Has(after, d)
          && after.values[d] == (if E.Has(before, d) then before.values[d] else DefaultFor(defaults[d], before.name)))
    && (forall x | x !in keys ::
          (E.Has(after, x) <==> E.Has(before, x))
          && (E.Has(before, x) ==> after.values[x] == before.values[x]))
  }

  /** Seeding fails exactly on a locked element that lacks a key, and
      otherwise fills in precisely the missing keys. */
  lemma {:induction false} SeedSpec(k: E.Kind, e: E.Element, defs: OrderedMap<Value>, todo: seq<string>)
    requires E.NoSetters(k)
    requires forall d | d in todo :: d in defs.entries
    ensures Seed(k, e, defs, todo).Err? <==> e.locked && exists d | d in todo :: !E.Has(e, d)
    ensures Seed(k, e, defs, todo).Ok? ==> Seeded(e, Seed(k, e, defs, todo).value, defs.entries, todo)
    decreases |todo|
  {
    if |todo| > 0 {
      var d0, rest := todo[0], todo[1..];
      assert forall d :: d in todo <==> d == d0 || d in rest;
      if E.Has(e, d0) {
        SeedSpec(k, e, defs, rest);
      } else if !e.locked {
        var e' := E.Store(k, e, d0, DefaultFor(defs.entries[d0], e.name));
        SeedSpec(k, e', defs, rest);
      }
    }
  }

  /** The value map of a newly created element: its native, and every
      definition's default (or the element's name) for the other keys. */
  ghost function FreshValues(defs: OrderedMap<Value>, name: string, native: Value): map<string, Value> {
    map x | x in defs.entries.Keys + {"native"} ::
      if x == "native" then native else DefaultFor(defs.entries[x], name)
  }

  /** A newly created, unlocked element. */
  ghost function FreshElementOf(defs: OrderedMap<Value>, name: string, native: Value): E.Element {
    E.Element(name, FreshValues(defs, name, native), false)
  }

  /** Registering seeds exactly the missing definitions, and fails only for a
      locked element that lacks one (the manager's own lock is not checked). */
  lemma RegisterSeeds(k: E.Kind, m: Manager, e: E.Element)
    requires Valid(m) && E.NoSetters(k)
    ensures Register(k, m, e).result.Err? <==> e.locked && exists d | d in m.definitions.entries :: !E.Has(e, d)
    ensures Register(k, m, e).result.Ok? ==>
      Seeded(e, Register(k, m, e).state.elements.entries[e.name], m.definitions.entries, m.definitions.keys)
  {
    SeedSpec(k, e, m.definitions, m.definitions.keys);
  }

  /** Registering under a name already in use replaces the element in place:
      the count does not grow and the order is unchanged. */
  lemma RegisterReplacesInPlace(k: E.Kind, m: Manager, e: E.Element)
    requires Valid(m) && Has(m, e.name)
    ensures Register(k, m, e).state.elements.keys == m.elements.keys
    ensures Count(Register(k, m, e).state) == Count(m)
  {
  }

  /** A successful registration keeps every element carrying every definition. */
  lemma RegisterKeepsComplete(k: E.Kind, m: Manager, e: E.Element)
    requires Valid(m) && Complete(m) && E.NoSetters(k)
    requires Register(k, m, e).result.Ok?
    ensures Complete(Register(k, m, e).state)
  {
    RegisterSeeds(k, m, e);
  }

  /** Seeding a just-constructed element yields the fresh element. */
  lemma SeedingNewIsFresh(e: E.Element, after: E.Element, defs: OrderedMap<Value>)
    requires defs.Valid() && !e.locked && "native" in e.values && e.values == map["native" := e.values["native"]]
    requires Seeded(e, after, defs.entries, defs.keys)
    ensures after == FreshElementOf(defs, e.name, e.values["native"])
  {
    forall x
      ensures x in after.values <==> x in defs.entries || x == "native"
    {
      if x !in defs.keys {
        assert x !in defs.entries;
      }
    }
  }

  /** `create` on an unlocked manager registers a fresh element whose native
      is the given value, or the name when that value is falsy, and whose
      other keys are exactly the definitions. */
  lemma CreateSpec(k: E.Kind, m: Manager, name: string, native: Value)
    requires Valid(m) && !m.locked && E.NoSetters(k)
    ensures Create(k, m, name, native).result.value == FreshElementOf(m.definitions, name, NativeFor(name, native))
    ensures Create(k, m, name, native).state.elements.entries
      == m.elements.entries[name := FreshElementOf(m.definitions, name, NativeFor(name, native))]
  {
    var e := E.New(k, name, NativeFor(name, native).s);
    RegisterSeeds(k, m, e);
    SeedingNewIsFresh(e, Create(k, m, name, native).result.value, m.definitions);
  }

  /** The created element's native reads back as given (or as the name). */
  lemma CreatedNative(k: E.Kind, m: Manager, name: string, native: Value)
    requires Valid(m) && !m.locked && E.NoSetters(k) && "native" !in k.getters
    ensures E.Get(k, Create(k, m, name, native).result.value, "native") == Ok(NativeFor(name, native))
  {
    CreateSpec(k, m, name, native);
  }

  /** The cast happens before storage: an element created with the integer
      native 5 is found by the string "5". */
  lemma CreatedIntNativeIsFound(className: string)
    ensures Find(E.BaseKind(className), Create(E.BaseKind(className), Managers.Empty(), "a", Int(5)).state, "5").Ok?
    ensures Find(E.BaseKind(className), Create(E.BaseKind(className), Managers.Empty(), "a", Int(5)).state, "5").value.name == "a"
  {
    var k := E.BaseKind(className);
    var m := Create(k, Managers.Empty(), "a", Int(5)).state;
    CreatedNative(k, Managers.Empty(), "a", Int(5));
    assert StringOf(Int(5)) == "5";
    assert m.elements.keys == ["a"];
    assert NativeIs(k, m.elements.entries["a"], "5");
  }

  /** The same holds for an element built directly and filed with
      `set($element)`: its constructor cast the integer 5 to "5". */
  lemma ConstructedIntNativeIsFound(className: string)
    ensures E.Construct(E.BaseKind(className), "a", Int(5)).Ok?
    ensures Find(E.BaseKind(className), Register(E.BaseKind(className), Managers.Empty(), E.Construct(E.BaseKind(className), "a", Int(5)).value).state, "5").Ok?
    ensures Find(E.BaseKind(className), Register(E.BaseKind(className), Managers.Empty(), E.Construct(E.BaseKind(className), "a", Int(5)).value).state, "5").value.name == "a"
  {
    var k := E.BaseKind(className);
    assert StringOf(Int(5)) == "5";
    var e := E.Construct(k, "a", Int(5)).value;
    assert e == E.New(k, "a", "5");
    var m := Register(k, Managers.Empty(), e).state;
    RegisterSeeds(k, Managers.Empty(), e);
    assert m.elements.keys == ["a"];
    assert m.elements.entries["a"] == e;
    assert NativeIs(k, m.elements.entries["a"], "5");
  }

  /** `create` keeps every element carrying every definition. */
  lemma CreateKeepsComplete(k: E.Kind, m: Manager, name: string, native: Value)
    requires Valid(m) && !m.locked && E.NoSetters(k) && Complete(m)
    ensures Complete(Create(k, m, name, native).state)
  {
    RegisterKeepsComplete(k, m, E.New(k, name, NativeFor(name, native).s));
  }

  /** The element's native can be read and differs from `native`. */
  ghost predicate Mismatch(k: E.Kind, e: E.Element, native: string) {
    E.Get(k, e, "native").Ok? && E.Get(k, e, "native") != Ok(Str(native))
  }

  /** A scan that succeeds returns the first element whose native is
      `native`, every element before it having been read without a match. */
  lemma {:induction false} FindInFirst(k: E.Kind, els: OrderedMap<E.Element>, todo: seq<string>, native: string)
    requires forall n | n in todo :: n in els.entries
    ensures FindIn(k, els, todo, native).Ok? ==>
      exists i | 0 <= i < |todo| ::
        && FindIn(k, els, todo, native).value == els.entries[todo[i]]
        && NativeIs(k, els.entries[todo[i]], native)
        && forall j | 0 <= j < i :: Mismatch(k, els.entries[todo[j]], native)
    decreases |todo|
  {
    if |todo| > 0 && FindIn(k, els, todo, native).Ok? {
      var r := FindIn(k, els, todo, native);
      var rest := todo[1..];
      if Mismatch(k, els.entries[todo[0]], native) {
        assert r == FindIn(k, els, rest, native);
        FindInFirst(k, els, rest, native);
        var i :| 0 <= i < |rest| && r.value == els.entries[rest[i]] && NativeIs(k, els.entries[rest[i]], native)
          && forall j | 0 <= j < i :: Mismatch(k, els.entries[rest[j]], native);
        assert todo[i + 1] == rest[i];
        forall j | 0 <= j < i + 1
          ensures Mismatch(k, els.entries[todo[j]], native)
        {
          if j > 0 { assert todo[j] == rest[j - 1]; }
        }
      } else {
        assert NativeIs(k, els.entries[todo[0]], native);
      }
    }
  }

  /** The scan reports a missing native value exactly when every element
      was read and none matched. */
  lemma {:induction false} FindInMissing(k: E.Kind, els: OrderedMap<E.Element>, todo: seq<string>, native: string)
    requires forall n | n in todo :: n in els.entries
    ensures FindIn(k, els, todo, native) == Err(UnknownNativeElement(k.className, native)) <==>
      forall j | 0 <= j < |todo| :: Mismatch(k, els.entries[todo[j]], native)
    decreases |todo|
  {
    if |todo| > 0 {
      var rest := todo[1..];
      if Mismatch(k, els.entries[todo[0]], native) {
        assert FindIn(k, els, todo, native) == FindIn(k, els, rest, native);
        FindInMissing(k, els, rest, native);
        assert (forall j | 0 <= j < |todo| :: Mismatch(k, els.entries[todo[j]], native)) <==>
               (forall j | 0 <= j < |rest| :: Mismatch(k, els.entries[rest[j]], native)) by {
          forall j | 0 <= j < |rest|
            ensures todo[j + 1] == rest[j]
          {
          }
        }
      } else {
        assert !Mismatch(k, els.entries[todo[0]], native);
      }
    }
  }

  /** A scan that fails otherwise fails on the first element whose native
      cannot be read, every element before it having been read without a
      match. */
  lemma {:induction false} FindInUnreadable(k: E.Kind, els: OrderedMap<E.Element>, todo: seq<string>, native: string)
    requires forall n | n in todo :: n in els.entries
    ensures FindIn(k, els, todo, native).Err? && FindIn(k, els, todo, native).error != UnknownNativeElement(k.className, native) ==>
      exists i | 0 <= i < |todo| ::
        && E.Get(k, els.entries[todo[i]], "native") == Err(FindIn(k, els, todo, native).error)
        && forall j | 0 <= j < i :: Mismatch(k, els.entries[todo[j]], native)
    decreases |todo|
  {
    var r := FindIn(k, els, todo, native);
    if |todo| > 0 && r.Err? && r.error != UnknownNativeElement(k.className, native) {
      var rest := todo[1..];
      if Mismatch(k, els.entries[todo[0]], native) {
        assert r == FindIn(k, els, rest, native);
        FindInUnreadable(k, els, rest, native);
        var i :| 0 <= i < |rest| && E.Get(k, els.entries[rest[i]], "native") == Err(r.error)
          && forall j | 0 <= j < i :: Mismatch(k, els.entries[rest[j]], native);
        assert todo[i + 1] == rest[i];
        forall j | 0 <= j < i + 1
          ensures Mismatch(k, els.entries[todo[j]], native)
        {
          if j > 0 { assert todo[j] == rest[j - 1]; }
        }
      } else {
        assert E.Get(k, els.entries[todo[0]], "native") == Err(r.error);
      }
    }
  }

  /** `find` returns the earliest element in `all()` order whose native is
      `native`, and fails naming the family and the value when none matches. */
  lemma FindReturnsFirst(k: E.Kind, m: Manager, native: string)
    requires Valid(m)
    ensures Find(k, m, native).Ok? ==>
      exists i | 0 <= i < |All(m)| ::
        && Find(k, m, native).value == All(m)[i]
        && NativeIs(k, All(m)[i], native)
        && forall j | 0 <= j < i :: Mismatch(k, All(m)[j], native)
    ensures Find(k, m, native) == Err(UnknownNativeElement(k.className, native)) <==>
      forall j | 0 <= j < |All(m)| :: Mismatch(k, All(m)[j], native)
  {
    var all := All(m);
    var keys := m.elements.keys;
    var r := Find(k, m, native);
    FindInFirst(k, m.elements, keys, native);
    FindInMissing(k, m.elements, keys, native);
    if r.Ok? {
      var i :| 0 <= i < |keys| && r.value == m.elements.entries[keys[i]]
        && NativeIs(k, m.elements.entries[keys[i]], native)
        && forall j | 0 <= j < i :: Mismatch(k, m.elements.entries[keys[j]], native);
      assert r.value == all[i] && NativeIs(k, all[i], native) by { assert all[i] == m.elements.entries[keys[i]]; }
      forall j | 0 <= j < i
        ensures Mismatch(k, all[j], native)
      {
        assert all[j] == m.elements.entries[keys[j]];
      }
    }
    assert (forall j | 0 <= j < |keys| :: Mismatch(k, m.elements.entries[keys[j]], native))
       <==> (forall j | 0 <= j < |all| :: Mismatch(k, all[j], native)) by {
      forall j | 0 <= j < |all|
        ensures all[j] == m.elements.entries[keys[j]]
      {
      }
    }
  }

  /** An element the backfill of `key` cannot update: locked and lacking the key. */
  predicate Blocks(e: E.Element, key: string) {
    e.locked && !E.Has(e, key)
  }

  /** One element's backfill fills in the key only when it is missing. */
  lemma FillInSeeds(k: E.Kind, e: E.Element, key: string, default: Value)
    requires E.NoSetters(k) && FillIn(k, e, key, default).Ok?
    ensures Seeded(e, FillIn(k, e, key, default).value, map[key := default], [key])
  {
  }

  /** The backfill runs to the end when no element blocks it. */
  lemma {:induction false} BackfillSucceedsUnblocked(k: E.Kind, els: OrderedMap<E.Element>, todo: seq<string>, key: string, default: Value)
    requires els.Valid() && NamesMatch(els)
    requires forall n | n in todo :: n in els.entries && !Blocks(els.entries[n], key)
    requires forall i, j | 0 <= i < j < |todo| :: todo[i] != todo[j]
    ensures Backfill(k, els, todo, key, default).error.None?
    decreases |todo|
  {
    if |todo| > 0 {
      var els' := Put(els, todo[0], FillIn(k, els.entries[todo[0]], key, default).value);
      assert todo[0] !in todo[1..];
      BackfillSucceedsUnblocked(k, els', todo[1..], key, default);
    }
  }

  /** The names of the elements that block a backfill of `key`. */
  ghost function Blockers(els: OrderedMap<E.Element>, key: string): set<string> {
    set n | n in els.entries && Blocks(els.entries[n], key)
  }

  /** The backfill stops, at position `i`, with the lock error of the first
      element in visiting order that blocks it. */
  lemma {:induction false} BackfillStopsAtBlocker(k: E.Kind, els: OrderedMap<E.Element>, todo: seq<string>, key: string, default: Value)
      returns (i: nat)
    requires els.Valid() && NamesMatch(els)
    requires forall n | n in todo :: n in els.entries
    requires exists n | n in todo :: n in Blockers(els, key)
    ensures i < |todo| && todo[i] in Blockers(els, key)
    ensures Backfill(k, els, todo, key, default).error == Some(LockViolation(todo[i], "set"))
    ensures forall j | 0 <= j < i :: todo[j] !in Blockers(els, key)
    decreases |todo|
  {
    var rest := todo[1..];
    var blockers := Blockers(els, key);
    if todo[0] !in blockers {
      var els' := BackfillPast(k, els, todo, key, default);
      assert exists n | n in rest :: n in blockers by {
        var n :| n in todo && n in blockers;
        assert n in rest;
      }
      var i' := BackfillStopsAtBlocker(k, els', rest, key, default);
      FirstShifted(todo, blockers, i');
      i := i' + 1;
    } else {
      i := 0;
      assert Backfill(k, els, todo, key, default).error == Some(LockViolation(todo[0], "set"));
    }
  }

  /** A first hit in the tail, past a miss at the head, is the first hit of
      the whole sequence. */
  lemma FirstShifted(todo: seq<string>, s: set<string>, i: nat)
    requires 0 <= i < |todo| - 1 && todo[0] !in s
    requires forall j | 0 <= j < i :: todo[1..][j] !in s
    ensures forall j | 0 <= j < i + 1 :: todo[j] !in s
    ensures todo[i + 1] == todo[1..][i]
  {
    forall j | 0 < j < i + 1
      ensures todo[j] !in s
    {
      assert todo[j] == todo[1..][j - 1];
    }
  }

  /** Passing an element that does not block leaves the blockers as they
      were: a filled-in element has the key. */
  lemma BackfillPast(k: E.Kind, els: OrderedMap<E.Element>, todo: seq<string>, key: string, default: Value)
      returns (els': OrderedMap<E.Element>)
    requires els.Valid() && NamesMatch(els)
    requires forall n | n in todo :: n in els.entries
    requires |todo| > 0 && todo[0] !in Blockers(els, key)
    ensures els'.Valid() && NamesMatch(els') && els'.entries.Keys == els.entries.Keys
    ensures Blockers(els', key) == Blockers(els, key)
    ensures Backfill(k, els', todo[1..], key, default) == Backfill(k, els, todo, key, default)
  {
    els' := Put(els, todo[0], FillIn(k, els.entries[todo[0]], key, default).value);
    assert Blockers(els', key) == Blockers(els, key) by {
      forall n | n in els.entries
        ensures n in Blockers(els', key) <==> n in Blockers(els, key)
      {
        if n == todo[0] {
          assert !Blocks(els'.entries[n], key);
        }
      }
    }
  }

  /** A complete backfill leaves each visited element as its own `FillIn` made it. */
  lemma {:induction false} BackfillFillsEach(k: E.Kind, els: OrderedMap<E.Element>, todo: seq<string>, key: string, default: Value, n: string)
    requires els.Valid() && NamesMatch(els)
    requires forall x | x in todo :: x in els.entries
    requires forall i, j | 0 <= i < j < |todo| :: todo[i] != todo[j]
    requires Backfill(k, els, todo, key, default).error.None?
    requires n in todo
    ensures FillIn(k, els.entries[n], key, default) == Ok(Backfill(k, els, todo, key, default).elements.entries[n])
    decreases |todo|
  {
    var els' := BackfillStep(k, els, todo, key, default);
    if n == todo[0] {
      assert Backfill(k, els', todo[1..], key, default).elements.entries[n] == els'.entries[n];
    } else {
      assert n in todo[1..];
      BackfillFillsEach(k, els', todo[1..], key, default, n);
    }
  }

  /** One step of a complete backfill: the first element is filled in, and
      the rest of the backfill runs on the updated map. */
  lemma BackfillStep(k: E.Kind, els: OrderedMap<E.Element>, todo: seq<string>, key: string, default: Value)
      returns (els': OrderedMap<E.Element>)
    requires els.Valid() && NamesMatch(els)
    requires forall x | x in todo :: x in els.entries
    requires forall i, j | 0 <= i < j < |todo| :: todo[i] != todo[j]
    requires Backfill(k, els, todo, key, default).error.None?
    requires |todo| > 0
    ensures els'.Valid() && NamesMatch(els') && todo[0] in els'.entries
    ensures FillIn(k, els.entries[todo[0]], key, default) == Ok(els'.entries[todo[0]])
    ensures els'.entries == els.entries[todo[0] := els'.entries[todo[0]]]
    ensures todo[0] !in todo[1..]
    ensures forall i, j | 0 <= i < j < |todo[1..]| :: todo[1..][i] != todo[1..][j]
    ensures Backfill(k, els', todo[1..], key, default) == Backfill(k, els, todo, key, default)
  {
    els' := Put(els, todo[0], FillIn(k, els.entries[todo[0]], key, default).value);
    forall i, j | 0 <= i < j < |todo[1..]|
      ensures todo[1..][i] != todo[1..][j]
    {
      assert todo[1..][i] == todo[i + 1] && todo[1..][j] == todo[j + 1];
    }
  }

  /** When every element already has the key, the backfill changes nothing. */
  lemma {:induction false} BackfillWhenAllHaveKey(k: E.Kind, els: OrderedMap<E.Element>, todo: seq<string>, key: string, default: Value)
    requires els.Valid() && NamesMatch(els)
    requires forall n | n in todo :: n in els.entries && E.Has(els.entries[n], key)
    ensures Backfill(k, els, todo, key, default) == Partial(els, None)
    decreases |todo|
  {
    if |todo| > 0 {
      assert Put(els, todo[0], els.entries[todo[0]]) == els;
      BackfillWhenAllHaveKey(k, els, todo[1..], key, default);
    }
  }

  /** `define` on an unlocked manager without that definition records it and
      backfills the elements lacking the key; it fails exactly when one of
      those is locked. */
  lemma DefineSpec(k: E.Kind, m: Manager, name: string, default: Value)
    requires Valid(m) && !m.locked && !DoesDefine(m, name) && E.NoSetters(k)
    ensures Define(k, m, name, default).state.definitions.entries == m.definitions.entries[name := default]
    ensures Define(k, m, name, default).result.Ok? <==> forall n | Has(m, n) :: !Blocks(m.elements.entries[n], name)
    ensures Define(k, m, name, default).result.Err? ==>
      exists n | Has(m, n) :: Blocks(m.elements.entries[n], name)
        && Define(k, m, name, default).result.error == LockViolation(n, "set")
    ensures Define(k, m, name, default).result.Ok? ==>
      forall n | Has(m, n) ::
        Seeded(m.elements.entries[n], Define(k, m, name, default).state.elements.entries[n], map[name := default], [name])
    ensures Define(k, m, name, default).result.Ok? && Complete(m) ==> Complete(Define(k, m, name, default).state)
  {
    if forall n | Has(m, n) :: !Blocks(m.elements.entries[n], name) {
      BackfillSucceedsUnblocked(k, m.elements, m.elements.keys, name, default);
    } else {
      var keys := m.elements.keys;
      var n :| Has(m, n) && Blocks(m.elements.entries[n], name);
      assert n in keys && n in Blockers(m.elements, name);
      var i := BackfillStopsAtBlocker(k, m.elements, keys, name, default);
      assert Has(m, keys[i]) && Blocks(m.elements.entries[keys[i]], name);
    }
    var s := Define(k, m, name, default);
    if s.result.Ok? {
      forall n | Has(m, n)
        ensures Seeded(m.elements.entries[n], s.state.elements.entries[n], map[name := default], [name])
      {
        assert n in m.elements.keys;
        BackfillFillsEach(k, m.elements, m.elements.keys, name, default, n);
        FillInSeeds(k, m.elements.entries[n], name, default);
      }
    }
    if s.result.Ok? && Complete(m) {
      forall n, d | n in s.state.elements.entries && d in s.state.definitions.entries
        ensures E.Has(s.state.elements.entries[n], d)
      {
        assert n in m.elements.keys;
        assert Seeded(m.elements.entries[n], s.state.elements.entries[n], map[name := default], [name]);
        if d != name {
          assert d in m.definitions.entries;
          assert E.Has(m.elements.entries[n], d);
        }
      }
    }
  }

  /** With a non-null default a repeated `define` changes nothing. */
  lemma DefineTwiceIsNoOp(k: E.Kind, m: Manager, name: string, default: Value)
    requires Valid(m) && default != Null
    requires Define(k, m, name, default).result.Ok?
    ensures Define(k, Define(k, m, name, default).state, name, default) == Step(Define(k, m, name, default).state, Ok(()))
  {
  }

  /** `isset` ignores a null default, so a definition recorded with one can be
      recorded again with another default; the elements, which all received
      the key the first time, keep their values. */
  lemma NullDefinitionCanBeRedefined(k: E.Kind, m: Manager, name: string, default: Value)
    requires Valid(m) && !m.locked && !DoesDefine(m, name) && E.NoSetters(k)
    requires Define(k, m, name, Null).result.Ok?
    ensures Define(k, Define(k, m, name, Null).state, name, default).result.Ok?
    ensures Define(k, Define(k, m, name, Null).state, name, default).state.definitions.entries[name] == default
    ensures Define(k, Define(k, m, name, Null).state, name, default).state.elements == Define(k, m, name, Null).state.elements
  {
    var m1 := Define(k, m, name, Null).state;
    assert !DoesDefine(m1, name);
    assert forall n | n in m1.elements.keys :: n in m1.elements.entries && E.Has(m1.elements.entries[n], name) by {
      DefineSpec(k, m, name, Null);
      forall n | n in m1.elements.keys
        ensures n in m1.elements.entries && E.Has(m1.elements.entries[n], name)
      {
        assert Has(m, n);
      }
    }
    BackfillWhenAllHaveKey(k, m1.elements, m1.elements.keys, name, default);
  }

  /** `Seeded` determines the element it describes. */
  lemma SeededUnique(before: E.Element, a: E.Element, b: E.Element, defaults: map<string, Value>, keys: seq<string>)
    requires forall d | d in keys :: d in defaults
    requires Seeded(before, a, defaults, keys) && Seeded(before, b, defaults, keys)
    ensures a == b
  {
    forall x | x in a.values
      ensures x in b.values && a.values[x] == b.values[x]
    {
    }
    forall x | x in b.values
      ensures x in a.values
    {
    }
    assert a.values == b.values;
  }

  /** A fresh element then backfilled with a new key is the fresh element of
      the extended definitions. */
  lemma FreshThenDefined(defs: OrderedMap<Value>, name: string, native: Value, key: string, default: Value)
    requires defs.Valid() && key !in defs.entries
    ensures Seeded(FreshElementOf(defs, name, native), FreshElementOf(Put(defs, key, default), name, native), map[key := default], [key])
  {
  }

  /** `define` of a new key that no element blocks succeeds, keeps the names,
      and backfills each element. */
  lemma DefineUnblocked(k: E.Kind, m: Manager, key: string, default: Value)
    requires Valid(m) && !m.locked && E.NoSetters(k) && key !in m.definitions.entries
    requires forall n | Has(m, n) :: !Blocks(m.elements.entries[n], key)
    ensures Define(k, m, key, default).result.Ok?
    ensures Define(k, m, key, default).state.definitions == Put(m.definitions, key, default)
    ensures Define(k, m, key, default).state.elements.entries.Keys == m.elements.entries.Keys
    ensures forall n | n in m.elements.entries ::
      Seeded(m.elements.entries[n], Define(k, m, key, default).state.elements.entries[n], map[key := default], [key])
  {
    DefineSpec(k, m, key, default);
    var s := Define(k, m, key, default).state;
    assert Valid(s) && s.elements.keys == m.elements.keys;
    assert forall n :: n in s.elements.entries <==> n in m.elements.entries by {
      assert forall n :: n in s.elements.entries <==> n in s.elements.keys;
      assert forall n :: n in m.elements.entries <==> n in m.elements.keys;
    }
  }

  /** One name's element is the same whichever of `create` and `define`
      runs first. */
  lemma CommuteAt(k: E.Kind, m: Manager, name: string, native: Value, key: string, default: Value, n: string)
    requires Valid(m) && !m.locked && E.NoSetters(k) && key !in m.definitions.entries
    requires forall x | Has(m, x) :: !Blocks(m.elements.entries[x], key)
    requires n == name || Has(m, n)
    ensures n in Define(k, Create(k, m, name, native).state, key, default).state.elements.entries
    ensures n in Create(k, Define(k, m, key, default).state, name, native).state.elements.entries
    ensures Define(k, Create(k, m, name, native).state, key, default).state.elements.entries[n]
      == Create(k, Define(k, m, key, default).state, name, native).state.elements.entries[n]
  {
    var nat' := NativeFor(name, native);
    var c := Create(k, m, name, native).state;
    var created := FreshElementOf(m.definitions, name, nat');
    assert c.elements.entries == m.elements.entries[name := created] by {
      CreateSpec(k, m, name, native);
    }
    assert forall x | Has(c, x) :: !Blocks(c.elements.entries[x], key);
    DefineUnblocked(k, c, key, default);
    var a := Define(k, c, key, default).state;
    var d := Define(k, m, key, default).state;
    assert d.definitions == Put(m.definitions, key, default);
    var b := Create(k, d, name, native).state;
    assert b.elements.entries == d.elements.entries[name := FreshElementOf(Put(m.definitions, key, default), name, nat')] by {
      CreateSpec(k, d, name, native);
    }
    if n == name {
      FreshThenDefined(m.definitions, name, nat', key, default);
      SeededUnique(created, a.elements.entries[n], b.elements.entries[n], map[key := default], [key]);
    } else {
      DefineUnblocked(k, m, key, default);
      SeededUnique(m.elements.entries[n], a.elements.entries[n], b.elements.entries[n], map[key := default], [key]);
    }
  }

  /** Creating an element and defining a new key commute when no element
      blocks the backfill: either order reaches the same registry. */
  lemma DefineCreateCommute(k: E.Kind, m: Manager, name: string, native: Value, key: string, default: Value)
    requires Valid(m) && !m.locked && E.NoSetters(k) && key !in m.definitions.entries
    requires forall n | Has(m, n) :: !Blocks(m.elements.entries[n], key)
    ensures Define(k, Create(k, m, name, native).state, key, default).result.Ok?
    ensures Create(k, Define(k, m, key, default).state, name, native).result.Ok?
    ensures Define(k, Create(k, m, name, native).state, key, default).state
      == Create(k, Define(k, m, key, default).state, name, native).state
  {
    var c := Create(k, m, name, native).state;
    assert c.elements.entries.Keys == m.elements.entries.Keys + {name} by {
      var e := Create(k, m, name, native).result.value;
      assert c.elements.entries == m.elements.entries[name := e];
      UpdateKeys(m.elements.entries, name, e);
    }
    assert forall n | Has(c, n) :: !Blocks(c.elements.entries[n], key) by {
      CreateSpec(k, m, name, native);
    }
    var a := Define(k, c, key, default).state;
    var d := Define(k, m, key, default).state;
    assert Define(k, c, key, default).result.Ok? && a.elements.entries.Keys == c.elements.entries.Keys by {
      DefineUnblocked(k, c, key, default);
    }
    assert Define(k, m, key, default).result.Ok? && d.elements.entries.Keys == m.elements.entries.Keys by {
      DefineUnblocked(k, m, key, default);
    }
    var b := Create(k, d, name, native).state;
    assert b.elements.entries.Keys == a.elements.entries.Keys by {
      assert !d.locked && Valid(d);
      var e := Create(k, d, name, native).result.value;
      assert b.elements.entries == d.elements.entries[name := e];
      UpdateKeys(d.elements.entries, name, e);
    }
    forall n | n in a.elements.entries
      ensures a.elements.entries[n] == b.elements.entries[n]
    {
      CommuteAt(k, m, name, native, key, default, n);
    }
    SameMaps(a.elements.entries, b.elements.entries);
  }

  lemma UpdateKeys<V>(mp: map<string, V>, x: string, v: V)
    ensures mp[x := v].Keys == mp.Keys + {x}
  {
  }

  lemma SameMaps<V>(a: map<string, V>, b: map<string, V>)
    requires a.Keys == b.Keys && forall n | n in a :: a[n] == b[n]
    ensures a == b
  {
  }

  /**
   * Create-then-define after a null definition: the element created while
   * `key` is recorded with a null default is seeded with its own name, and
   * the second `define` (let through by `isset`) finds it already holding
   * the key and leaves it alone.
   */
  lemma NullRedefinedCreatedFirst(k: E.Kind, m: Manager, name: string, key: string, default: Value)
    requires Valid(m) && !m.locked && E.NoSetters(k) && m.elements.keys == []
    requires key != "native" && key in m.definitions.entries && m.definitions.entries[key] == Null
    ensures
      var s := Define(k, Create(k, m, name, Null).state, key, default).state;
      && name in s.elements.entries
      && key in s.elements.entries[name].values
      && s.elements.entries[name].values[key] == Str(name)
  {
    var c := Create(k, m, name, Null).state;
    assert !DoesDefine(c, key) && Valid(c) && !c.locked;
    assert forall n | n in c.elements.keys :: n in c.elements.entries && E.Has(c.elements.entries[n], key) by {
      CreatedAloneHoldsKey(k, m, name, key);
    }
    BackfillWhenAllHaveKey(k, c.elements, c.elements.keys, key, default);
    assert Define(k, c, key, default).state.elements == c.elements;
    CreatedAloneHoldsKey(k, m, name, key);
  }

  /** The first element created after a null definition of `key` holds that
      key, seeded with its own name. */
  lemma CreatedAloneHoldsKey(k: E.Kind, m: Manager, name: string, key: string)
    requires Valid(m) && !m.locked && E.NoSetters(k) && m.elements.keys == []
    requires key != "native" && key in m.definitions.entries && m.definitions.entries[key] == Null
    ensures Create(k, m, name, Null).state.elements.keys == [name]
    ensures E.Has(Create(k, m, name, Null).state.elements.entries[name], key)
    ensures Create(k, m, name, Null).state.elements.entries[name].values[key] == Str(name)
  {
    CreateSpec(k, m, name, Null);
  }

  /** Define-then-create after the same null definition: the element created
      last is seeded with the new default. */
  lemma NullRedefinedDefinedFirst(k: E.Kind, m: Manager, name: string, key: string, default: Value)
    requires Valid(m) && !m.locked && E.NoSetters(k)
    requires key != "native" && key in m.definitions.entries && m.definitions.entries[key] == Null && default != Null
    ensures
      var s := Create(k, Define(k, m, key, default).state, name, Null).state;
      && name in s.elements.entries
      && key in s.elements.entries[name].values
      && s.elements.entries[name].values[key] == default
  {
    var d := Define(k, m, key, default).state;
    DefineSpec(k, m, key, default);
    CreateSpec(k, d, name, Null);
  }

  /** So `define` and `create` do not commute once a key was defined with a
      null default: any other non-null default tells the two orders apart. */
  lemma NullRedefinitionBreaksCommute(k: E.Kind, m: Manager, name: string, key: string, default: Value)
    requires Valid(m) && !m.locked && E.NoSetters(k) && m.elements.keys == []
    requires key != "native" && key in m.definitions.entries && m.definitions.entries[key] == Null
    requires default != Null && default != Str(name)
    ensures Define(k, Create(k, m, name, Null).state, key, default).state
      != Create(k, Define(k, m, key, default).state, name, Null).state
  {
    NullRedefinedCreatedFirst(k, m, name, key, default);
    NullRedefinedDefinedFirst(k, m, name, key, default);
  }

  /** An element whose own lock fails: unlocked and without a native value. */
  predicate CannotLock(e: E.Element) {
    !e.locked && !E.Has(e, "native")
  }

  /** The names of the elements whose own lock fails. */
  ghost function Unlockable(els: OrderedMap<E.Element>): set<string> {
    set n | n in els.entries && CannotLock(els.entries[n])
  }

  /** The names of the locked elements. */
  ghost function LockedNames(els: OrderedMap<E.Element>): set<string> {
    set n | n in els.entries && els.entries[n].locked
  }

  /** Locking an element that can be locked: it becomes locked, the other
      elements stay, and the rest of the cascade runs on the updated map. */
  lemma LockPast(els: OrderedMap<E.Element>, todo: seq<string>) returns (els': OrderedMap<E.Element>)
    requires els.Valid() && NamesMatch(els)
    requires forall n | n in todo :: n in els.entries
    requires |todo| > 0 && todo[0] !in Unlockable(els)
    ensures els'.Valid() && NamesMatch(els') && els'.entries.Keys == els.entries.Keys
    ensures Unlockable(els') == Unlockable(els)
    ensures LockedNames(els') == LockedNames(els) + {todo[0]}
    ensures LockAll(els', todo[1..]) == LockAll(els, todo)
  {
    els' := Put(els, todo[0], E.Lock(els.entries[todo[0]]).value);
    assert Unlockable(els') == Unlockable(els) by {
      forall n | n in els.entries
        ensures n in Unlockable(els') <==> n in Unlockable(els)
      {
      }
    }
    assert LockedNames(els') == LockedNames(els) + {todo[0]} by {
      forall n | n in els.entries
        ensures n in LockedNames(els') <==> n in LockedNames(els) || n == todo[0]
      {
      }
    }
  }

  /** The cascade never unlocks an element. */
  lemma {:induction false} LockAllKeepsLocked(els: OrderedMap<E.Element>, todo: seq<string>)
    requires els.Valid() && NamesMatch(els)
    requires forall n | n in todo :: n in els.entries
    ensures LockedNames(els) <= LockedNames(LockAll(els, todo).elements)
    decreases |todo|
  {
    if |todo| > 0 && todo[0] !in Unlockable(els) {
      var els' := LockPast(els, todo);
      LockAllKeepsLocked(els', todo[1..]);
    }
  }

  /** The cascade runs to the end exactly when every element can be locked. */
  lemma {:induction false} LockAllSucceedsIff(els: OrderedMap<E.Element>, todo: seq<string>)
    requires els.Valid() && NamesMatch(els)
    requires forall n | n in todo :: n in els.entries
    ensures LockAll(els, todo).error.None? <==> forall n | n in todo :: n !in Unlockable(els)
    decreases |todo|
  {
    if |todo| > 0 {
      var rest := todo[1..];
      assert forall n :: n in todo <==> n == todo[0] || n in rest;
      if todo[0] !in Unlockable(els) {
        var els' := LockPast(els, todo);
        LockAllSucceedsIff(els', rest);
      }
    }
  }

  /** A failing cascade stops, at position `i`, with the lock error of the
      first element in visiting order that cannot be locked; every element
      before it is left locked. */
  lemma {:induction false} LockAllStopsAtFirst(els: OrderedMap<E.Element>, todo: seq<string>) returns (i: nat)
    requires els.Valid() && NamesMatch(els)
    requires forall n | n in todo :: n in els.entries
    requires LockAll(els, todo).error.Some?
    ensures i < |todo| && todo[i] in Unlockable(els)
    ensures LockAll(els, todo).error == Some(LockViolation(todo[i], "native"))
    ensures forall j | 0 <= j < i :: todo[j] !in Unlockable(els)
    ensures forall j | 0 <= j < i :: todo[j] in LockedNames(LockAll(els, todo).elements)
    decreases |todo|
  {
    var rest := todo[1..];
    var bad := Unlockable(els);
    if todo[0] !in bad {
      var els' := LockPast(els, todo);
      var r := LockAll(els', rest);
      assert r == LockAll(els, todo);
      var locked := LockedNames(r.elements);
      var i' := LockAllStopsAtFirst(els', rest);
      LockAllKeepsLocked(els', rest);
      assert todo[0] in locked;
      FirstShifted(todo, bad, i');
      PrefixShifted(todo, locked, i');
      i := i' + 1;
    } else {
      i := 0;
      assert LockAll(els, todo).error == Some(LockViolation(todo[0], "native"));
    }
  }

  /** A prefix of the tail inside a set, after a head inside it, is a
      prefix of the whole sequence inside it. */
  lemma PrefixShifted(todo: seq<string>, s: set<string>, i: nat)
    requires 0 <= i < |todo| - 1 && todo[0] in s
    requires forall j | 0 <= j < i :: todo[1..][j] in s
    ensures forall j | 0 <= j < i + 1 :: todo[j] in s
  {
    forall j | 0 < j < i + 1
      ensures todo[j] in s
    {
      assert todo[j] == todo[1..][j - 1];
    }
  }

  /** Locking an unlocked manager succeeds exactly when every element can be
      locked; when it fails the manager stays unlocked. */
  lemma LockSpec(m: Manager)
    requires Valid(m) && !m.locked
    ensures Lock(m).result.Ok? <==> forall n | Has(m, n) :: !CannotLock(m.elements.entries[n])
    ensures Lock(m).result.Err? ==> !Lock(m).state.locked
  {
    LockAllSucceedsIff(m.elements, m.elements.keys);
    assert (forall n | n in m.elements.keys :: n !in Unlockable(m.elements))
       <==> (forall n | Has(m, n) :: !CannotLock(m.elements.entries[n]));
  }

  /** A failing lock of the manager stops with the lock error of the first
      element, in `all()` order, that cannot be locked; the elements before
      it are left locked. */
  lemma LockStopsAtFirst(m: Manager)
    requires Valid(m) && !m.locked && Lock(m).result.Err?
    ensures exists i | 0 <= i < |m.elements.keys| ::
      && m.elements.keys[i] in Unlockable(m.elements)
      && Lock(m).result.error == LockViolation(m.elements.keys[i], "native")
      && (forall j | 0 <= j < i :: m.elements.keys[j] !in Unlockable(m.elements))
      && (forall j | 0 <= j < i :: m.elements.keys[j] in LockedNames(Lock(m).state.elements))
  {
    var i := LockAllStopsAtFirst(m.elements, m.elements.keys);
  }

  /** After a successful lock the manager and its elements refuse every change. */
  lemma LockedRefusesChanges(k: E.Kind, m: Manager, name: string, key: string, v: Value, defaults: Defaults)
    requires Valid(m) && Lock(m).result.Ok?
    ensures Lock(Lock(m).state) == Step(Lock(m).state, Ok(()))
    ensures Create(k, Lock(m).state, name, v) == Step(Lock(m).state, Err(LockViolation(k.className, "create")))
    ensures Define(k, Lock(m).state, key, v) == Step(Lock(m).state, Err(LockViolation(k.className, "define")))
    ensures (if defaults.Names? then |defaults.names| else |defaults.entries|) > 0 ==>
      BulkSet(k, Lock(m).state, defaults) == Step(Lock(m).state, Err(LockViolation(k.className, "create")))
    ensures (if defaults.Names? then |defaults.names| else |defaults.entries|) == 0 ==>
      BulkSet(k, Lock(m).state, defaults) == Step(Lock(m).state, Ok(()))
    ensures !m.locked && Has(m, name) ==> E.Set(k, Lock(m).state.elements.entries[name], key, v).Err?
  {
  }

  /** The `set($element)` path has no lock check: a locked manager still
      files an unlocked element, which can then be changed. */
  lemma RegisterBypassesManagerLock(k: E.Kind, m: Manager, e: E.Element)
    requires Valid(m) && m.locked && !e.locked && E.NoSetters(k)
    ensures Register(k, m, e).result.Ok?
    ensures Register(k, m, e).state.locked
    ensures !Register(k, m, e).state.elements.entries[e.name].locked
  {
    RegisterSeeds(k, m, e);
  }

  /** `has` agrees with `all`: a name is held exactly when some listed
      element carries it. */
  lemma HasIffListed(m: Manager, n: string)
    requires Valid(m)
    ensures Has(m, n) <==> exists i | 0 <= i < |All(m)| :: All(m)[i].name == n
  {
    if Has(m, n) {
      var i :| 0 <= i < |m.elements.keys| && m.elements.keys[i] == n;
      assert All(m)[i].name == n;
    }
  }

  /** `doesDefine` and `definitions` after a `define` of a key not yet
      defined: the definition is appended (or replaced in place, for a null
      one), and the key counts as defined exactly when the default is not
      null, following `isset`. */
  lemma DefineRecordsDefinition(k: E.Kind, m: Manager, key: string, default: Value)
    requires Valid(m) && !m.locked && !DoesDefine(m, key)
    ensures key in Definitions(Define(k, m, key, default).state).entries
    ensures Definitions(Define(k, m, key, default).state).entries[key] == default
    ensures Definitions(Define(k, m, key, default).state).keys
      == if key in m.definitions.entries then m.definitions.keys else m.definitions.keys + [key]
    ensures DoesDefine(Define(k, m, key, default).state, key) <==> default != Null
    ensures forall d | d != key :: DoesDefine(Define(k, m, key, default).state, d) <==> DoesDefine(m, d)
  {
  }

  /** Under a class inheriting `getName`, `set($element)` files the element
      under the name `getName` returns. */
  lemma RegisterFilesUnderGetName(k: E.Kind, m: Manager, e: E.Element)
    requires Valid(m) && E.InheritsGetName(k)
    ensures E.Get(k, e, "name") == Ok(Str(e.name))
    ensures Has(Register(k, m, e).state, E.Get(k, e, "name").value.s)
  {
  }
}
