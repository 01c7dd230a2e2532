# laramore/base core in Dafny

This project models the in-memory core of laramore/base, a PHP library.
It covers four pieces, described below. The model is functional: every
operation takes the current state and returns the new state together with a
success or failure value (`Result`), in place of PHP's exceptions.

- **Elements** (`src/Elements/BaseElement.php`). A named element has an
  identity name, an open key/value store and a lock flag. `get` resolves a key
  in this order: a getter override, then the identity name, then the stored
  value. `set` is refused once the element is locked. Locking needs a `native`
  value. The constructor's `string $native` parameter refuses null and casts
  any other scalar to a string (`Elements.Construct`, and `Managers.NativeFor`
  on the `create` path); a native written later through the untyped `set` is
  stored as given. PHP finds overrides by reflection (`method_exists('get'.studly(key))`).
  Here a `Kind` lists them explicitly, keyed by attribute key.
- **Managers** (`src/Elements/BaseManager.php`). A manager is the registry of
  one element family.
  - It stores elements by name in insertion order, as a PHP array does. It also
    keeps the family's definitions: default attributes that are seeded into
    every registered element and backfilled into existing ones by `define`.
  - Bulk configuration comes in two shapes: a list of names, or a map from
    names to a scalar native or an attribute map.
  - Locking the manager cascades to its elements.
  - PHP mutates the registry in place, so a failure leaves behind whatever was
    done before it. Each manager operation therefore returns a `Step`: the
    state reached plus the result.
- **Ownership** (`src/Traits/IsOwned.php`). The `own` guard is modelled as
  written and, separately, as evidently intended (see Findings).
- **Configuration merge** (`mergeConfig` in
  `src/Traits/Providers/MergesConfig.php`).
  - It is a recursive merge of PHP arrays.
  - Arrays are modelled as ordered sequences of integer- or string-keyed pairs.
    `isset`, `unset`, assignment and `array_merge` are written out, including
    the integer-key renumbering.
  - `Arr::isAssoc` means "the keys are not exactly 0..n-1 in order".

Modules:
- `Values`, `Errors`: scalar values, PHP truthiness, error values, `Option` and `Result`.
- `OrderedMaps`: an insertion-ordered string-keyed array.
- `Elements`, `ElementFacts`: the element and the properties relating its operations.
- `Managers`: the registry operations.
- `ManagerFacts`, `BulkFacts`: properties of the registry and of bulk configuration.
- `Ownership`: the ownership mixin.
- `ConfigMerge`: the configuration merge and its properties.

The lock primitive (the `IsLocked` trait) is not part of this model. Its shape
follows the `IsLockable` interface. `lock` on a locked instance changes
nothing. Otherwise it runs the class's `locking` hook, and sets the flag only
when the hook succeeds. `needsToBeUnlocked` fails exactly when the instance is
locked.

Many manager properties are stated for classes without setter overrides
(`NoSetters`). A setter override may rewrite the whole value map, so nothing
general can be said about what it keeps.

## Model

| member | source | states |
|---|---|---|
| Elements.BaseKind | src/Elements/BaseElement.php:52-55 | the base class's only accessor override is the inherited `getName`; every other key is plain |
| Elements.Get | src/Elements/BaseElement.php:75-88 | an override wins; otherwise "name" yields the identity name; otherwise a stored key yields its value; it fails exactly when none applies, with an error naming the class, the element and the key |
| Elements.Store | src/Elements/BaseElement.php:100-106 | past the guard, a setter override computes the value map, else the key alone is written; the name and lock flag never change |
| Elements.Set | src/Elements/BaseElement.php:97-107 | fails exactly on a locked element, with a lock error and no change; otherwise stores |
| Elements.New | src/Elements/BaseElement.php:41-45 | given the string the `$native` parameter received, the new element carries the given name and is unlocked; without a `native` setter override its values are exactly that string under "native" |
| Elements.Construct | src/Elements/BaseElement.php:41-45 | `new` from a scalar native fails with a TypeError exactly when the native is null; otherwise the element is named, unlocked, and holds the native's string form |
| Elements.Locking | src/Elements/BaseElement.php:115-120 | the hook fails with a lock error labelled "native" exactly when the element has no native value |
| Elements.Lock | src/Interfaces/IsLockable.php:17-29 | fails only for an unlocked element without a native; on success the element is locked with its name and values unchanged |
| Elements.Invoke | src/Elements/BaseElement.php:185-192 | a truthy key is looked up with `get`; a missing or falsy key yields the name |
| ElementFacts.NewResolvesNameAndNative | src/Elements/BaseElement.php:41-55 | after construction `get("name")` is the name and "name" is not a stored key; without `native` overrides `has("native")` holds and `get("native")` is the given string |
| ElementFacts.ConstructedNativeIsCast | src/Elements/BaseElement.php:41-45 | building from a scalar succeeds iff it is not null, and `get("native")` then reads back its string form: 5 as "5", true as "1" |
| ElementFacts.NameIgnoresStoredValue | src/Elements/BaseElement.php:75-80 | with the inherited `getName`, storing a value under "name" puts it in the map, yet `get("name")` still yields the identity name |
| ElementFacts.GetStoredIffHas | src/Elements/BaseElement.php:81-87 | without a getter override, `get` succeeds iff `has` holds, returns the stored value, and otherwise fails naming the element and the key |
| ElementFacts.SetThenGet | src/Elements/BaseElement.php:100-106 | `set` on an unlocked element makes `get` return the new value and leaves every other non-overridden key reading as before |
| ElementFacts.LockedIsFrozen | src/Elements/BaseElement.php:97-99 | a locked element refuses every `set`, and locking it again changes nothing |
| ElementFacts.SetAddsKey | src/Elements/BaseElement.php:63-66 | `has` after `set` of a key without a setter override: exactly that key is added, and every other key and value is kept |
| ElementFacts.NameIsGetName | src/Elements/BaseElement.php:52-55 | for a class inheriting `getName`, `get("name")` is the string form (`__toString`), and a failed `get` reports that name |
| ElementFacts.InvokeWithoutKeyIsName | src/Elements/BaseElement.php:185-202 | invoking without a truthy key equals the string form and `get()` with its default key "name" |
| OrderedMaps.Put | src/Elements/BaseManager.php:142 | assigning an existing name keeps the order and replaces the entry; a new name is appended; the key order stays duplicate-free |
| OrderedMaps.CountMatchesOrder | src/Elements/BaseManager.php:189-192 | the number of entries equals the length of the insertion order |
| Managers.DefaultFor | src/Elements/BaseManager.php:146 | `default ?? name`: never null; a null default becomes the element's name and a non-null default is kept |
| Managers.NativeFor | src/Elements/BaseManager.php:111 | `native ?: name` passed to the `string $native` parameter: a truthy native becomes its string form (a string is kept), anything falsy becomes the name |
| Values.StringOf | src/Elements/BaseElement.php:41 | PHP's cast of a scalar to a declared `string`: a string is kept, an integer becomes its decimal digits, true becomes "1", false becomes ""; null is outside its domain, since the parameter rejects it |
| Managers.Get | src/Elements/BaseManager.php:90-97 | succeeds iff the name is registered, with the element filed under that name (whose own name it is), else fails naming the family and the name |
| Managers.All | src/Elements/BaseManager.php:179-182 | the registered elements, one per name, in insertion order |
| Managers.Count | src/Elements/BaseManager.php:189-192 | the number of registered names, equal to the length of `all()` |
| Managers.FindIn | src/Elements/BaseManager.php:74-80 | a successful scan returns one of the scanned elements, and its native is the one sought |
| Managers.Find | src/Elements/BaseManager.php:72-81 | a found element is registered and its native equals the one sought |
| Managers.Seed | src/Elements/BaseManager.php:144-148 | seeding keeps the element's name and lock flag, and fails only on a locked element, with that element's lock error |
| Managers.Register | src/Elements/BaseManager.php:141-151 | the element is filed under its name, in place or appended, with no lock check of the manager; nothing else changes; a failure leaves the locked element filed as given |
| Managers.Create | src/Elements/BaseManager.php:107-115 | fails with no change on a locked manager; otherwise returns an unlocked element with that name, filed in place or appended |
| Managers.GetOrCreate | src/Elements/BaseManager.php:123-130 | returns the registered element unchanged, or the result of `create` with no native |
| Managers.SetOn | src/Elements/BaseManager.php:159 | writing to a registered element fails with no change iff the element is locked; otherwise only that element changes, by `set` |
| Managers.SetPairs | src/Elements/BaseManager.php:158-160 | an attribute map changes only the named element and always succeeds on an unlocked one |
| Managers.SetNames | src/Elements/BaseManager.php:166-169 | the list shape fails with no change on a locked manager (if there is a name), succeeds on an unlocked one, and removes no element |
| Managers.ApplyEntry | src/Elements/BaseManager.php:154-164 | one associative entry registers its name on an unlocked manager and fails with no change on a locked one |
| Managers.SetAssoc | src/Elements/BaseManager.php:153-165 | the associative shape fails with no change on a locked manager (if there is an entry), succeeds on an unlocked one, and removes no element |
| Managers.BulkSet | src/Elements/BaseManager.php:139-172 | bulk configuration keeps the definitions and the lock, and succeeds on an unlocked manager |
| Managers.New | src/Elements/BaseManager.php:49-52 | constructing a manager succeeds, leaves it unlocked with no definitions, and every element carries every definition |
| Managers.FillIn | src/Elements/BaseManager.php:219-221 | one element's backfill fails iff the element is locked and lacks the key; its name and lock flag stay |
| Managers.Backfill | src/Elements/BaseManager.php:218-222 | the backfill keeps the registry's names and order, and leaves unvisited elements unchanged |
| Managers.Define | src/Elements/BaseManager.php:211-224 | fails with no change when locked; a no-op when `isset` already holds; otherwise records the definition in insertion order |
| Managers.LockAll | src/Elements/BaseManager.php:243-245 | the lock cascade changes no values, leaves unvisited elements unchanged, and when it completes every visited element is locked |
| Managers.Lock | src/Elements/BaseManager.php:241-246 | locking changes no values or definitions; it succeeds exactly when the manager ends up locked; when the manager was unlocked, success means every element is locked; a locked manager is left as it is |
| ManagerFacts.SeedSpec | src/Elements/BaseManager.php:144-148 | seeding fails iff the element is locked and lacks a definition; otherwise each missing key receives its default (or the element's name when null), and every other key is untouched |
| ManagerFacts.RegisterSeeds | src/Elements/BaseManager.php:141-151 | registration fails iff the element is locked and lacks a definition; otherwise the filed element is the given one with exactly its missing definitions seeded |
| ManagerFacts.RegisterReplacesInPlace | src/Elements/BaseManager.php:142 | registering a used name keeps the order, so `count()` does not grow and the name keeps its position |
| ManagerFacts.RegisterKeepsComplete | src/Elements/BaseManager.php:144-148 | a successful registration keeps every element carrying every definition |
| ManagerFacts.SeedingNewIsFresh | src/Elements/BaseManager.php:144-148 | seeding an element holding only its native yields exactly the native plus every definition's default |
| ManagerFacts.CreateSpec | src/Elements/BaseManager.php:107-115 | the created element is the fresh element (its native, then every definition's default), filed under its name, and no other element changes |
| ManagerFacts.CreatedNative | src/Elements/BaseManager.php:111 | the created element's native reads back as the string form of a truthy native, or else as the name |
| ManagerFacts.CreatedIntNativeIsFound | src/Elements/BaseManager.php:72-115 | an element created with the integer native 5 stores "5" and so is found by `find("5")` |
| ManagerFacts.ConstructedIntNativeIsFound | src/Elements/BaseManager.php:72-148 | an element built directly with the integer native 5 and filed with `set($element)` is found by `find("5")` |
| ManagerFacts.CreateKeepsComplete | src/Elements/BaseManager.php:107-115 | `create` keeps every element carrying every definition |
| ManagerFacts.FindInFirst | src/Elements/BaseManager.php:74-78 | a successful scan returns the element at some position whose native matches, and every earlier element has a readable, different native |
| ManagerFacts.FindInMissing | src/Elements/BaseManager.php:74-80 | the scan fails with "does not exist" iff every scanned element has a readable, different native |
| ManagerFacts.FindInUnreadable | src/Elements/BaseManager.php:74-76 | any other failure is the failed `get("native")` of the first element without a readable native, all earlier ones mismatching |
| ManagerFacts.FindReturnsFirst | src/Elements/BaseManager.php:72-81 | `find` returns the earliest element in `all()` order whose native matches, and fails with "does not exist" iff every element's native differs |
| ManagerFacts.FillInSeeds | src/Elements/BaseManager.php:219-221 | one element's backfill seeds the key only when the element lacks it |
| ManagerFacts.BackfillSucceedsUnblocked | src/Elements/BaseManager.php:218-222 | the backfill completes when no element is locked and lacking the key |
| ManagerFacts.BackfillStopsAtBlocker | src/Elements/BaseManager.php:218-222 | when some element is locked and lacks the key, the backfill fails with the lock error of the first such element in order |
| ManagerFacts.BackfillFillsEach | src/Elements/BaseManager.php:218-222 | after a completed backfill every visited element is its one-element backfill |
| ManagerFacts.BackfillWhenAllHaveKey | src/Elements/BaseManager.php:218-222 | when every element already has the key the backfill changes nothing |
| ManagerFacts.DefineSpec | src/Elements/BaseManager.php:211-224 | `define` records the default; it succeeds iff no element is locked and lacking the key, else fails with such an element's lock error; on success each element gains the key only if it lacked it, and completeness is kept |
| ManagerFacts.DefineTwiceIsNoOp | src/Elements/BaseManager.php:200-216 | a second `define` of a key with a non-null default changes nothing |
| ManagerFacts.NullDefinitionCanBeRedefined | src/Elements/BaseManager.php:200-216 | a definition recorded with a null default can be recorded again with another default, leaving the elements as the first `define` left them |
| ManagerFacts.HasIffListed | src/Elements/BaseManager.php:60-63 | `has(name)` holds iff some element of `all()` carries that name |
| ManagerFacts.DefineRecordsDefinition | src/Elements/BaseManager.php:200-234 | after a `define` of a key not yet defined, `definitions()` holds the default, appended or replaced in place, and `doesDefine` holds for the key iff the default is not null, and is unchanged for every other key |
| ManagerFacts.RegisterFilesUnderGetName | src/Elements/BaseManager.php:139-142 | for a class inheriting `getName`, the element is filed under what `getName` returns |
| ManagerFacts.SeededUnique | src/Elements/BaseManager.php:144-148 | seeding the same keys with the same defaults into the same element gives one result |
| ManagerFacts.FreshThenDefined | src/Elements/BaseManager.php:107-115 | a fresh element backfilled with a new key equals the fresh element under the extended definitions |
| ManagerFacts.DefineUnblocked | src/Elements/BaseManager.php:211-224 | `define` of a new key that no element blocks succeeds, records the definition, keeps the names, and backfills each element |
| ManagerFacts.CommuteAt | src/Elements/BaseManager.php:107-224 | for a new key no element blocks, each name holds the same element whichever of `create` and `define` runs first |
| ManagerFacts.DefineCreateCommute | src/Elements/BaseManager.php:107-224 | for a new key no element blocks, `create` then `define` and `define` then `create` both succeed and reach the same registry |
| ManagerFacts.CreatedAloneHoldsKey | src/Elements/BaseManager.php:107-115 | the first element created after a null definition of a key holds that key, seeded with its own name |
| ManagerFacts.NullRedefinedCreatedFirst | src/Elements/BaseManager.php:200-224 | after a null definition, an element created before a second `define` of the key keeps its own name as the value |
| ManagerFacts.NullRedefinedDefinedFirst | src/Elements/BaseManager.php:107-224 | after a null definition, an element created after a second `define` of the key receives the new default |
| ManagerFacts.NullRedefinitionBreaksCommute | src/Elements/BaseManager.php:200-224 | so once a key is defined with a null default, `create` and a second `define` reach different registries depending on their order |
| ManagerFacts.LockAllKeepsLocked | src/Elements/BaseManager.php:243-245 | the lock cascade never unlocks an element |
| ManagerFacts.LockAllSucceedsIff | src/Elements/BaseManager.php:243-245 | the cascade completes iff no visited element is unlocked and lacking a native |
| ManagerFacts.LockAllStopsAtFirst | src/Elements/BaseManager.php:243-245 | a failing cascade stops with the lock error of the first element that cannot be locked, every earlier one being locked |
| ManagerFacts.LockSpec | src/Elements/BaseManager.php:241-246 | locking an unlocked manager succeeds iff every element can be locked, and a failure leaves the manager unlocked |
| ManagerFacts.LockStopsAtFirst | src/Elements/BaseManager.php:241-246 | a failing manager lock reports the first element in `all()` order that cannot be locked, and leaves the elements before it locked |
| ManagerFacts.LockedRefusesChanges | src/Elements/BaseManager.php:107-224 | after a successful lock, `lock` is a no-op; `create`, `define` and a non-empty bulk `set` fail with no change, and an empty bulk `set` succeeds with no change; when the manager was unlocked before, `set` fails on every element it held |
| ManagerFacts.RegisterBypassesManagerLock | src/Elements/BaseManager.php:139-151 | a locked manager still files an unlocked element and stays locked, and that element stays unlocked |
| BulkFacts.OverlayWritesPairs | src/Elements/BaseManager.php:158-160 | writing an attribute map stores each pair and keeps every other key |
| BulkFacts.SetPairsOverlays | src/Elements/BaseManager.php:158-160 | an attribute map applied to an unlocked element succeeds and changes exactly its values, by the overlay |
| BulkFacts.SetNamesCreatesEach | src/Elements/BaseManager.php:166-169 | the list shape leaves each listed name holding a fresh element whose native is its name, and every other element as it was |
| BulkFacts.ApplyNativeSpec | src/Elements/BaseManager.php:161-163 | a scalar entry yields the fresh element with that scalar as its native |
| BulkFacts.OverlayOnCreated | src/Elements/BaseManager.php:155-160 | an attribute map written over a freshly created element yields the configured element |
| BulkFacts.ApplyAttributesSpec | src/Elements/BaseManager.php:155-160 | an attribute entry yields the fresh element with the pairs written over its seeded definitions |
| BulkFacts.ApplyEntrySpec | src/Elements/BaseManager.php:154-164 | one associative entry yields its configured element and touches no other |
| BulkFacts.SetAssocConfigures | src/Elements/BaseManager.php:153-165 | the associative shape overlays the configured elements, a later entry winning, and touches no other element |
| BulkFacts.NamesNativeIsName | src/Elements/BaseManager.php:166-169 | under the list shape each listed element's native reads back as its name |
| BulkFacts.AssocScalarIsNative | src/Elements/BaseManager.php:161-163 | under the associative shape a scalar entry's value reads back as the element's native |
| BulkFacts.AssocAttributesReadBack | src/Elements/BaseManager.php:155-160 | under the associative shape every pair of an attribute map reads back, overriding any seeded definition |
| BulkFacts.SetOnKeepsComplete | src/Elements/BaseManager.php:159 | writing one key keeps every element carrying every definition |
| BulkFacts.SetPairsKeepsComplete | src/Elements/BaseManager.php:158-160 | an attribute map keeps every element carrying every definition |
| BulkFacts.ApplyEntryKeepsComplete | src/Elements/BaseManager.php:154-164 | one associative entry keeps every element carrying every definition |
| BulkFacts.BulkSetKeepsComplete | src/Elements/BaseManager.php:153-169 | bulk configuration of either shape keeps every element carrying every definition |
| BulkFacts.LockKeepsComplete | src/Elements/BaseManager.php:241-246 | locking keeps every element carrying every definition |
| Ownership.Unowned | src/Traits/IsOwned.php:23 | a new instance has a null owner and is neither owned nor locked |
| Ownership.CheckNeedsToBeOwned | src/Traits/IsOwned.php:129-141 | as written: passes iff the LOCK flag equals the expected state; the unowned expectation fails with the ownership exception, the owned one with the missing-method failure |
| Ownership.NeedsToBeOwned | src/Traits/IsOwned.php:150-153 | as written: fails iff the instance is unlocked, with the missing-method failure |
| Ownership.NeedsToBeUnowned | src/Traits/IsOwned.php:162-165 | as written: fails iff the instance is locked, with the ownership exception |
| Ownership.SetOwner | src/Traits/IsOwned.php:62-67 | fails iff the instance is locked; otherwise only the owner changes |
| Ownership.OwnerReadsBack | src/Traits/IsOwned.php:62-119 | `isOwned` holds iff `getOwner` yields an owner; a `setOwner` succeeds iff the instance is unlocked, and then `getOwner` yields that owner and the name is kept |
| Ownership.Own | src/Traits/IsOwned.php:76-84 | fails iff the instance is locked, before any field changes; otherwise the instance is owned by the given owner under the given name |
| Ownership.UnownedCanBeOwned | src/Traits/IsOwned.php:76-84 | a first `own` of a new instance succeeds and records the owner |
| Ownership.LockedCannotBeOwned | src/Traits/IsOwned.php:131 | as written: `own` on any locked instance fails with the ownership exception |
| Ownership.SecondOwnOverwrites | src/Traits/IsOwned.php:69-84 | as written: a second `own` succeeds and replaces the owner and name |
| Ownership.OwnedInstanceFailsOwnedCheck | src/Traits/IsOwned.php:137 | as written: an owned, unlocked instance fails `needsToBeOwned`, through the missing method |
| Ownership.CheckOwnership | src/Traits/IsOwned.php:129-141 | intended: passes iff ownership equals the expected state; failures are ownership exceptions |
| Ownership.OwnOnce | src/Traits/IsOwned.php:69-84 | intended: `own` fails iff already owned; otherwise records owner and name and keeps the lock flag |
| Ownership.OwnerIsUnique | src/Traits/IsOwned.php:69-84 | intended: once owned, every later `own` fails and the first owner stays |
| Ownership.IntendedOwnedCheck | src/Traits/IsOwned.php:150-153 | intended: `needsToBeOwned` fails on an unowned instance and passes once it is owned |
| ConfigMerge.IsAssocShape | src/Traits/Providers/MergesConfig.php:41 | the empty array is not associative; a string key, or an integer key out of position, makes an array associative; a non-associative array is keyed 0..n-1 |
| ConfigMerge.Assign | src/Traits/Providers/MergesConfig.php:49-51 | assignment to a present key keeps the key order; to a new key it appends |
| ConfigMerge.AssignLookup | src/Traits/Providers/MergesConfig.php:49-51 | after assignment the key reads as the new value and every other key as before |
| ConfigMerge.RemoveLookup | src/Traits/Providers/MergesConfig.php:54 | after `unset` the key is absent and every other key reads as before |
| ConfigMerge.ArrayMergeLookup | src/Traits/Providers/MergesConfig.php:58 | `array_merge($a, $b)` at a string key holds `$b`'s value when `$b` has the key, else `$a`'s |
| ConfigMerge.ArrayMergeKeys | src/Traits/Providers/MergesConfig.php:58 | `array_merge($a, $b)` on string keys lists `$a`'s keys, then `$b`'s new ones in order |
| ConfigMerge.Merge | src/Traits/Providers/MergesConfig.php:39-62 | a shape mismatch with a non-empty merging side fails with the dot-joined path; a non-associative original is replaced by the merging side |
| ConfigMerge.Walk | src/Traits/Providers/MergesConfig.php:45-56 | the loop keeps the original's keys in order |
| ConfigMerge.MergeValue | src/Traits/Providers/MergesConfig.php:48-51 | a non-array value is overwritten; an array meeting a non-array fails with a type error |
| ConfigMerge.WalkSucceeds | src/Traits/Providers/MergesConfig.php:45-56 | the loop succeeds iff every original pair settles against the merging side as given |
| ConfigMerge.WalkValues | src/Traits/Providers/MergesConfig.php:45-56 | after the loop each original key holds its settled value, at its original position |
| ConfigMerge.WalkLeftover | src/Traits/Providers/MergesConfig.php:47-54 | what the loop leaves of the merging side is exactly the pairs whose key the original lacks or whose value is null |
| ConfigMerge.MergeSucceeds | src/Traits/Providers/MergesConfig.php:41-56 | merging into an associative original succeeds iff every shared, set key merges |
| ConfigMerge.MergeLookup | src/Traits/Providers/MergesConfig.php:45-58 | at a string key, the result holds the original key's settled value, or else the merging side's value |
| ConfigMerge.MergingOnlyKeyKept | src/Traits/Providers/MergesConfig.php:58 | a key only the merging side has keeps its merging value |
| ConfigMerge.OriginalKeyKept | src/Traits/Providers/MergesConfig.php:47 | an original key the merging side leaves absent or null keeps its original value |
| ConfigMerge.SharedScalarOverwritten | src/Traits/Providers/MergesConfig.php:50-51 | a shared key with a non-array original value takes the merging value |
| ConfigMerge.SharedArrayMerged | src/Traits/Providers/MergesConfig.php:48-49 | a shared key with an array original value holds the recursive merge, its path extended by the key |
| ConfigMerge.MergeNothing | src/Traits/Providers/MergesConfig.php:41-58 | merging an empty array into a string-keyed associative array gives it back unchanged |
| ConfigMerge.MergeNothingRenumbers | src/Traits/Providers/MergesConfig.php:58 | with integer keys an empty merge does not give the original back: `array_merge` renumbers `[5 => x]` to `[0 => x]` |
| ConfigMerge.MergeOrder | src/Traits/Providers/MergesConfig.php:58 | on string keys the result lists the merging side's leftover keys first, in their order, then the original's other keys, in theirs |

## Left out

- `mergeConfigFrom` (`src/Traits/Providers/MergesConfig.php:25-30`): it loads a file and reads and writes the application's configuration container, which is I/O.
- `src/Traits/HasLockedMacros.php`: it depends on the framework's global boot state and on Illuminate's `Macroable`.
- Reflective dispatch is left out: `__call`, `__get`, `__set` and `__isset`, and calling an attribute value as a function. `$element->native` is read as `get("native")` and written as `set("native", …)`, which is what these magic methods do.
- `Str::studly` and `Str::snake` are not modelled. A class's overrides are listed by attribute key in its `Kind` instead.
- Elements.BaseKind: lists `getName` under the key "name" only. PHP looks the method up as `'get'.studly(key)`, and method names are case-insensitive, so keys such as "NAME", "Name" or "na_me" also reach `getName`, while the model treats them as plain stored keys. The empty key is not modelled either: `get("")` calls `get()` itself and yields the name, and `set("", v)` calls `set(v)`, which fails for the missing argument. Methods of the `IsLocked` trait, which is not part of this model, could add further such matches.
- A setter override is modelled as a function returning the element's new value map. An override that renames the element, locks it or throws is not modelled.
- Exception messages and classes are not modelled. Each exception becomes an error value that carries the labels the source passes: element or family name, operation, key, or path.
- A guard called without a label takes `getDebugMethodName()`, a stack inspection. The model uses the guarded operation's name instead.
- The `IsLocked` trait is not part of this model. Its `lock` is taken as "no-op when already locked, else run the hook, then set the flag". The lock error of a failing hook is labelled with the instance's name.
- The `owned` hook and `setName` of the class using `IsOwned` are abstract. `setName` is modelled as recording the name. `owned` is modelled as changing nothing.
- Several object issues are not modelled:
  - PHP objects are shared by reference; elements are values here.
  - An element registered with one manager and changed elsewhere is not modelled.
  - A class registering an element of a different class (the `instanceof` test at `src/Elements/BaseManager.php:141`) is not modelled. The bulk input shape is given explicitly instead.
- Values are null, booleans, integers and strings. Floats, arrays as attribute values, and callables are not modelled.
- Managers.New: starts with no definitions. A subclass may give `$definitions` initial defaults, which `set` would then seed into the constructor's elements; such a subclass is not modelled.
- Managers.Register, Managers.Seed, Managers.FillIn, Elements.Get: a class overriding `getName` is not modelled. These members use the identity name where PHP calls `getName()` (src/Elements/BaseManager.php:142, 146 and 220; src/Elements/BaseElement.php:87). The two agree for every class inheriting `getName` (`Elements.InheritsGetName`), as `ElementFacts.NameIsGetName` and `ManagerFacts.RegisterFilesUnderGetName` state.
- ManagerFacts.DefineCreateCommute: `create` and `define` are shown to commute only for a key with no recorded definition that no locked element blocks. A key recorded with a null default breaks the commutation, because `isset` lets a second `define` through (`ManagerFacts.NullRedefinitionBreaksCommute`). With a blocking element both orders fail, and their failure states are not compared.
- PHP converts numeric-string array keys to integers, and `in_array` in `has` compares loosely. Neither is modelled. Keys are compared exactly.
- `ConfigMerge.MergeLookup`, `ConfigMerge.MergeOrder` and the other merge lemmas are stated for string keys only. Integer keys are still modelled in `Merge`, including `array_merge`'s renumbering, which `ConfigMerge.MergeNothingRenumbers` exhibits.
- ConfigMerge.MergeNothing: requires a string-keyed original, because `array_merge` renumbers integer keys (see `ConfigMerge.MergeNothingRenumbers`).
- Managers.Find: its own contract states only soundness. `ManagerFacts.FindReturnsFirst` states the full first-match and failure characterisation.
- Managers.Define: its own contract does not describe the backfill. `ManagerFacts.DefineSpec` does, for classes without setter overrides.

## Findings

| source | as written | input that shows it | evidently intended | confidence | as-written member | corrected member |
|---|---|---|---|---|---|---|
| src/Traits/IsOwned.php:131 | the ownership guard compares `isLocked()` with the expected state | an unlocked instance owned once: a second `own` passes the guard and replaces the owner and name | compare `isOwned()`, so `own` assigns a unique owner as its doc comment says | not executed | Ownership.SecondOwnOverwrites | Ownership.OwnerIsUnique |
| src/Traits/IsOwned.php:137 | the owned-expectation failure calls `getNotOwnedMessage`, which the trait does not define (only `getUnownedMessage` exists) | `needsToBeOwned()` on an unlocked instance: PHP fails on the undefined method instead of raising the ownership exception | raise the ownership exception with `getUnownedMessage()` | not executed | Ownership.OwnedInstanceFailsOwnedCheck | Ownership.IntendedOwnedCheck |
