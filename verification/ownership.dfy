/** The ownership mixin (src/Traits/IsOwned.php): an instance is handed an
    owner and a name once, through `own`.

    As written the guard compares the instance's LOCK flag, not its owner,
    with the expected state, and the "needs to be owned" failure calls a
    message method the trait does not define. Both are modelled as written
    (`CheckNeedsToBeOwned`, `Own`) and, next to them, as evidently intended
    (`CheckOwnership`, `OwnOnce`). */
module Ownership {
  import opened Errors

  /** The owned instance: its owner (`$owner`, null until owned), the name its
      owner gave it, and the lock flag of the lockable class using the mixin. */
  datatype Ownable<O> = Ownable(owner: Option<O>, name: Option<string>, locked: bool)

  /** A newly built instance: no owner, no name, unlocked. */
  function Unowned<O>(): (x: Ownable<O>)
    ensures !IsOwned(x) && GetOwner(x).None? && !x.locked
  {
    Ownable(None, None, false)
  }

  /** `getOwner` */
  function GetOwner<O>(x: Ownable<O>): Option<O> {
    x.owner
  }

  /** `isOwned`: PHP's cast of an object to bool is always true, so the
      instance is owned exactly when an owner is recorded. */
  predicate IsOwned<O>(x: Ownable<O>) {
    GetOwner(x).Some?
  }

  /** The label the exception carries: the one given, else the name of the
      guarded operation (`getDebugMethodName`). */
  function LabelOr(given: Option<string>, operation: string): string {
    if given.Some? then given.value else operation
  }

  /** `checkNeedsToBeOwned`, as written: passes when the LOCK flag equals the
      expected ownership state. Otherwise an unowned expectation raises the
      ownership exception, and an owned expectation fails while building its
      message, on the undefined `getNotOwnedMessage`. */
  function CheckNeedsToBeOwned<O>(x: Ownable<O>, owned: bool, given: Option<string>, operation: string): (r: Result<()>)
    ensures r.Ok? <==> x.locked == owned
    ensures r.Err? && owned ==> r.error == UndefinedMethod("getNotOwnedMessage")
    ensures r.Err? && !owned ==> r.error == OwnershipViolation(LabelOr(given, operation))
  {
    if x.locked == owned then Ok(())
    else if owned then Err(UndefinedMethod("getNotOwnedMessage"))
    else Err(OwnershipViolation(LabelOr(given, operation)))
  }

  /** `needsToBeOwned`, as written: fails exactly when the instance is unlocked. */
  function NeedsToBeOwned<O>(x: Ownable<O>, given: Option<string>, operation: string): (r: Result<()>)
    ensures r.Ok? <==> x.locked
    ensures r.Err? ==> r.error == UndefinedMethod("getNotOwnedMessage")
  {
    CheckNeedsToBeOwned(x, true, given, operation)
  }

  /** `needsToBeUnowned`, as written: fails exactly when the instance is locked. */
  function NeedsToBeUnowned<O>(x: Ownable<O>, given: Option<string>, operation: string): (r: Result<()>)
    ensures r.Ok? <==> !x.locked
    ensures r.Err? ==> r.error == OwnershipViolation(LabelOr(given, operation))
  {
    CheckNeedsToBeOwned(x, false, given, operation)
  }

  /** `setOwner`: the unowned guard, then the owner is recorded. */
  function SetOwner<O>(x: Ownable<O>, o: O): (r: Result<Ownable<O>>)
    ensures r.Err? <==> x.locked
    ensures r.Err? ==> r.error == OwnershipViolation("setOwner")
    ensures r.Ok? ==> r.value == x.(owner := Some(o))
  {
    var _ :- NeedsToBeUnowned(x, None, "setOwner");
    Ok(x.(owner := Some(o)))
  }

  /** `getOwner` and `isOwned` read back what `setOwner` records: a
      successful `setOwner` makes the instance owned by exactly that owner,
      and an instance is owned exactly when `getOwner` yields an owner. */
  lemma OwnerReadsBack<O>(x: Ownable<O>, o: O)
    ensures IsOwned(x) <==> GetOwner(x) != None
    ensures SetOwner(x, o).Ok? <==> !x.locked
    ensures SetOwner(x, o).Ok? ==> IsOwned(SetOwner(x, o).value) && GetOwner(SetOwner(x, o).value) == Some(o)
    ensures SetOwner(x, o).Ok? ==> SetOwner(x, o).value.name == x.name
  {
  }

  /** `own`, as written: set the owner (guarded), then the name; the
      class's `owned` hook is taken to change nothing. */
  function Own<O>(x: Ownable<O>, o: O, name: string): (r: Result<Ownable<O>>)
    ensures r.Err? <==> x.locked
    ensures r.Err? ==> r.error == OwnershipViolation("setOwner")
    ensures r.Ok? ==> IsOwned(r.value) && GetOwner(r.value) == Some(o) && r.value.name == Some(name)
    ensures r.Ok? ==> r.value.locked == x.locked
  {
    var owned :- SetOwner(x, o);
    Ok(owned.(name := Some(name)))
  }

  /** A first `own` of a new instance succeeds. */
  lemma UnownedCanBeOwned<O>(o: O, name: string)
    ensures Own(Unowned<O>(), o, name).Ok?
    ensures GetOwner(Own(Unowned<O>(), o, name).value) == Some(o)
  {
  }

  /** As written, `own` on a locked instance fails before any field changes,
      whether or not it is owned. */
  lemma LockedCannotBeOwned<O>(x: Ownable<O>, o: O, name: string)
    requires x.locked
    ensures Own(x, o, name) == Err(OwnershipViolation("setOwner"))
  {
  }

  /** As written, the owner is not unique: a second `own` of an unlocked
      instance succeeds and replaces the first owner and name. */
  lemma SecondOwnOverwrites<O>(o1: O, o2: O, n1: string, n2: string)
    ensures Own(Unowned<O>(), o1, n1).Ok?
    ensures IsOwned(Own(Unowned<O>(), o1, n1).value)
    ensures Own(Own(Unowned<O>(), o1, n1).value, o2, n2).Ok?
    ensures GetOwner(Own(Own(Unowned<O>(), o1, n1).value, o2, n2).value) == Some(o2)
    ensures Own(Own(Unowned<O>(), o1, n1).value, o2, n2).value.name == Some(n2)
  {
  }

  /** As written, `needsToBeOwned` rejects an owned but unlocked instance,
      and does so with a missing-method failure rather than an ownership
      exception. */
  lemma OwnedInstanceFailsOwnedCheck<O>(o: O, name: string)
    ensures NeedsToBeOwned(Own(Unowned<O>(), o, name).value, None, "needsToBeOwned")
      == Err(UndefinedMethod("getNotOwnedMessage"))
  {
  }

  /** The intended guard: compares ownership itself, and reports either
      failure as an ownership exception (`getUnownedMessage` for the owned
      expectation). */
  function CheckOwnership<O>(x: Ownable<O>, owned: bool, given: Option<string>, operation: string): (r: Result<()>)
    ensures r.Ok? <==> IsOwned(x) == owned
    ensures r.Err? ==> r.error == OwnershipViolation(LabelOr(given, operation))
  {
    if IsOwned(x) == owned then Ok(())
    else Err(OwnershipViolation(LabelOr(given, operation)))
  }

  /** `own` with the intended guard. */
  function OwnOnce<O>(x: Ownable<O>, o: O, name: string): (r: Result<Ownable<O>>)
    ensures r.Err? <==> IsOwned(x)
    ensures r.Err? ==> r.error == OwnershipViolation("setOwner")
    ensures r.Ok? ==> r.value == Ownable(Some(o), Some(name), x.locked)
  {
    var _ :- CheckOwnership(x, false, None, "setOwner");
    Ok(x.(owner := Some(o), name := Some(name)))
  }

  /** With the intended guard the owner is unique: once `own` succeeds, every
      later `own` fails and the first owner and name stay. */
  lemma OwnerIsUnique<O>(x: Ownable<O>, o1: O, o2: O, n1: string, n2: string)
    requires OwnOnce(x, o1, n1).Ok?
    ensures OwnOnce(OwnOnce(x, o1, n1).value, o2, n2) == Err(OwnershipViolation("setOwner"))
    ensures GetOwner(OwnOnce(x, o1, n1).value) == Some(o1)
  {
  }

  /** With the intended guard, an owned instance passes `needsToBeOwned`
      and an unowned one fails it with an ownership exception, whatever the
      lock flag. */
  lemma IntendedOwnedCheck<O>(x: Ownable<O>, o: O, name: string)
    requires !IsOwned(x)
    ensures CheckOwnership(x, true, None, "needsToBeOwned") == Err(OwnershipViolation("needsToBeOwned"))
    ensures CheckOwnership(OwnOnce(x, o, name).value, true, None, "needsToBeOwned").Ok?
  {
  }
}
