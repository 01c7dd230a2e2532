/** The recursive configuration merge (`mergeConfig` in
    src/Traits/Providers/MergesConfig.php): a package's own configuration
    tree (`original`) is overlaid with the application's (`merging`).

    A PHP array is an ordered sequence of key/entry pairs whose keys are
    integers or strings; `array_merge` renumbers integer keys. */
module ConfigMerge {
  import opened Values
  import opened Errors

  datatype Key = IntKey(i: int) | StrKey(s: string)

  /** A configuration value: a scalar leaf or a (nested) PHP array. */
  datatype Config = Leaf(value: Value) | Arr(entries: seq<(Key, Config)>)

  type Entries = seq<(Key, Config)>

  // ---------------------------------------------------------------------
  // PHP array primitives

  function KeysOf(es: Entries): (ks: seq<Key>)
    ensures |ks| == |es|
  {
    if |es| == 0 then [] else [es[0].0] + KeysOf(es[1..])
  }

  lemma {:induction false} KeysOfAt(es: Entries)
    ensures forall i | 0 <= i < |es| :: KeysOf(es)[i] == es[i].0
    decreases |es|
  {
    if |es| > 0 {
      KeysOfAt(es[1..]);
      assert forall i | 1 <= i < |es| :: es[1..][i - 1] == es[i];
    }
  }

  /** A PHP array never repeats a key. */
  ghost predicate UniqueKeys(es: Entries) {
    forall i, j | 0 <= i < j < |es| :: es[i].0 != es[j].0
  }

  /** The keys are exactly 0, 1, ..., n-1 in that order. */
  predicate IsList(es: Entries) {
    forall i | 0 <= i < |es| :: es[i].0 == IntKey(i)
  }

  /** `Arr::isAssoc`: the keys are anything but 0, 1, ..., n-1 in order. */
  predicate IsAssoc(es: Entries) {
    !IsList(es)
  }

  /** The shape `Arr::isAssoc` reports: the empty array and any array keyed
      0, 1, ..., n-1 are lists; a string key anywhere, or an integer key out
      of its position, makes the array associative. */
  lemma IsAssocShape(es: Entries, i: nat)
    requires i < |es|
    ensures !IsAssoc([])
    ensures es[i].0.StrKey? ==> IsAssoc(es)
    ensures es[i].0 != IntKey(i) ==> IsAssoc(es)
    ensures !IsAssoc(es) ==> forall j | 0 <= j < |es| :: es[j].0 == IntKey(j)
  {
  }

  /** `$array[$key]`, when the key is present. */
  function Lookup(es: Entries, k: Key): Option<Config> {
    if |es| == 0 then None
    else if es[0].0 == k then Some(es[0].1)
    else Lookup(es[1..], k)
  }

  /** A key is found exactly when the array has it. */
  lemma {:induction false} LookupFound(es: Entries, k: Key)
    ensures Lookup(es, k).Some? <==> k in KeysOf(es)
    decreases |es|
  {
    if |es| > 0 {
      LookupFound(es[1..], k);
    }
  }

  /** `isset($array[$key])`: present and not null. */
  predicate Isset(es: Entries, k: Key) {
    Lookup(es, k).Some? && Lookup(es, k).value != Leaf(Null)
  }

  /** `unset($array[$key])` */
  function Remove(es: Entries, k: Key): Entries {
    if |es| == 0 then []
    else if es[0].0 == k then Remove(es[1..], k)
    else [es[0]] + Remove(es[1..], k)
  }

  /** After `unset` the key is gone and every other key reads as before. */
  lemma {:induction false} RemoveLookup(es: Entries, k: Key, j: Key)
    ensures Lookup(Remove(es, k), j) == if j == k then None else Lookup(es, j)
    decreases |es|
  {
    if |es| > 0 {
      RemoveLookup(es[1..], k, j);
      if es[0].0 != k {
        assert ([es[0]] + Remove(es[1..], k))[1..] == Remove(es[1..], k);
      }
    }
  }

  /** `$array[$key] = $value` for a string key: overwrite in place, or append. */
  function Assign(es: Entries, k: Key, v: Config): (r: Entries)
    ensures k in KeysOf(es) ==> KeysOf(r) == KeysOf(es)
    ensures k !in KeysOf(es) ==> KeysOf(r) == KeysOf(es) + [k]
  {
    if |es| == 0 then [(k, v)]
    else if es[0].0 == k then
      assert ([(k, v)] + es[1..])[1..] == es[1..];
      [(k, v)] + es[1..]
    else
      var r := [es[0]] + Assign(es[1..], k, v);
      assert r[1..] == Assign(es[1..], k, v);
      r
  }

  /** After an assignment the key reads as the value and every other key as before. */
  lemma {:induction false} AssignLookup(es: Entries, k: Key, v: Config, j: Key)
    ensures Lookup(Assign(es, k, v), j) == if j == k then Some(v) else Lookup(es, j)
    decreases |es|
  {
    if |es| > 0 && es[0].0 != k {
      AssignLookup(es[1..], k, v, j);
      assert ([es[0]] + Assign(es[1..], k, v))[1..] == Assign(es[1..], k, v);
    }
  }

  /** The pairs of one array appended to a partial `array_merge` result whose
      next integer key is `next`: integer keys are renumbered from there, string
      keys are assigned. */
  function AppendAll(acc: Entries, next: int, es: Entries): (Entries, int)
    decreases |es|
  {
    if |es| == 0 then (acc, next)
    else if es[0].0.IntKey? then AppendAll(acc + [(IntKey(next), es[0].1)], next + 1, es[1..])
    else AppendAll(Assign(acc, es[0].0, es[0].1), next, es[1..])
  }

  /** `array_merge($a, $b)` */
  function ArrayMerge(a: Entries, b: Entries): Entries {
    var first := AppendAll([], 0, a);
    AppendAll(first.0, first.1, b).0
  }

  // ---------------------------------------------------------------------
  // The dotted path of the conflict exception

  function KeyString(k: Key): string {
    match k
    case IntKey(i) => IntString(i)
    case StrKey(s) => s
  }

  /** `implode('.', $path)` */
  function Join(path: seq<Key>): string
    decreases |path|
  {
    if |path| == 0 then ""
    else if |path| == 1 then KeyString(path[0])
    else KeyString(path[0]) + "." + Join(path[1..])
  }

  // ---------------------------------------------------------------------
  // The merge

  /** The shape check: exactly one side is associative and `merging` is not empty. */
  predicate Conflicts(original: Entries, merging: Entries) {
    IsAssoc(original) != IsAssoc(merging) && |merging| > 0
  }

  /** `mergeConfig($original, $merging, $path)` */
  function Merge(original: Entries, merging: Entries, path: seq<Key>): (r: Result<Entries>)
    ensures Conflicts(original, merging) ==> r == Err(ConfigMergeConflict(Join(path)))
    ensures !Conflicts(original, merging) && !IsAssoc(original) ==> r == Ok(merging)
    decreases Arr(original), 2, 0
  {
    if Conflicts(original, merging) then Err(ConfigMergeConflict(Join(path)))
    else if IsAssoc(original) then
      var walked :- Walk(original, 0, merging, path);
      Ok(ArrayMerge(walked.1, walked.0))
    else Ok(merging)
  }

  /** The loop over the original's pairs from position `i` on: each key the
      merging side sets is merged (arrays) or overwritten (anything else) and
      unset from the merging side. Yields the updated pairs and what is left
      of `merging`. */
  function Walk(original: Entries, i: nat, merging: Entries, path: seq<Key>): (r: Result<(Entries, Entries)>)
    requires i <= |original|
    ensures r.Ok? ==> KeysOf(r.value.0) == KeysOf(original[i..])
    decreases Arr(original), 1, |original| - i
  {
    if i == |original| then Ok(([], merging))
    else
      var k := original[i].0;
      assert original[i] in original;
      if Isset(merging, k) then
        var merged :- MergeValue(original[i].1, Lookup(merging, k).value, path + [k]);
        var rest :- Walk(original, i + 1, Remove(merging, k), path);
        Ok(([(k, merged)] + rest.0, rest.1))
      else
        var rest :- Walk(original, i + 1, merging, path);
        Ok(([original[i]] + rest.0, rest.1))
  }

  /** One shared key: an array is merged recursively (the merging value must
      then be an array too, as the parameter type demands); any other value
      is replaced. */
  function MergeValue(value: Config, incoming: Config, path: seq<Key>): (r: Result<Config>)
    ensures !value.Arr? ==> r == Ok(incoming)
    ensures value.Arr? && !incoming.Arr? ==> r == Err(ArgumentTypeError)
    decreases value, 3, 0
  {
    match value
    case Leaf(_) => Ok(incoming)
    case Arr(es) =>
      if !incoming.Arr? then Err(ArgumentTypeError)
      else
        var merged :- Merge(es, incoming.entries, path);
        Ok(Arr(merged))
  }

  // ---------------------------------------------------------------------
  // `array_merge` on string keys

  /** Every key is a string key. */
  predicate StringKeyed(es: Entries) {
    forall i | 0 <= i < |es| :: es[i].0.StrKey?
  }

  /** The keys of `xs` that are not in `ys`, in order. */
  function Without(xs: seq<Key>, ys: seq<Key>): seq<Key> {
    if |xs| == 0 then []
    else (if xs[0] in ys then [] else [xs[0]]) + Without(xs[1..], ys)
  }

  lemma {:induction false} WithoutAbsent(xs: seq<Key>, ys: seq<Key>, k: Key)
    requires k !in xs
    ensures Without(xs, ys + [k]) == Without(xs, ys)
  {
    if |xs| > 0 {
      assert xs[0] != k;
      WithoutAbsent(xs[1..], ys, k);
    }
  }

  lemma KeysOfConcat(a: Entries, b: Entries)
    ensures KeysOf(a + b) == KeysOf(a) + KeysOf(b)
  {
    KeysOfAt(a + b);
    KeysOfAt(a);
    KeysOfAt(b);
    var ks := KeysOf(a + b);
    assert forall i | 0 <= i < |ks| :: ks[i] == (KeysOf(a) + KeysOf(b))[i];
  }

  lemma UniqueTail(es: Entries)
    requires UniqueKeys(es) && |es| > 0
    ensures UniqueKeys(es[1..]) && es[0].0 !in KeysOf(es[1..])
  {
    var rest := es[1..];
    assert forall i | 0 <= i < |rest| :: rest[i] == es[i + 1];
    KeysOfAt(rest);
  }

  /** Appending a string-keyed array writes its values and keeps the others. */
  lemma {:induction false} AppendAllLookup(acc: Entries, next: int, es: Entries, s: string)
    requires UniqueKeys(es)
    ensures Lookup(AppendAll(acc, next, es).0, StrKey(s))
      == if StrKey(s) in KeysOf(es) then Lookup(es, StrKey(s)) else Lookup(acc, StrKey(s))
    decreases |es|
  {
    if |es| > 0 {
      UniqueTail(es);
      if es[0].0.IntKey? {
        var acc' := acc + [(IntKey(next), es[0].1)];
        AppendAllLookup(acc', next + 1, es[1..], s);
        LookupAppended(acc, (IntKey(next), es[0].1), StrKey(s));
      } else {
        AppendAllLookup(Assign(acc, es[0].0, es[0].1), next, es[1..], s);
        AssignLookup(acc, es[0].0, es[0].1, StrKey(s));
      }
    }
  }

  lemma {:induction false} LookupAppended(acc: Entries, e: (Key, Config), k: Key)
    requires e.0 != k
    ensures Lookup(acc + [e], k) == Lookup(acc, k)
    decreases |acc|
  {
    if |acc| > 0 {
      assert (acc + [e])[1..] == acc[1..] + [e];
      LookupAppended(acc[1..], e, k);
    }
  }

  /** Appending string-keyed pairs adds their new keys at the end, in order. */
  lemma {:induction false} AppendAllKeys(acc: Entries, next: int, es: Entries)
    requires UniqueKeys(es) && StringKeyed(es)
    ensures KeysOf(AppendAll(acc, next, es).0) == KeysOf(acc) + Without(KeysOf(es), KeysOf(acc))
    decreases |es|
  {
    if |es| > 0 {
      UniqueTail(es);
      var k, rest := es[0].0, es[1..];
      var acc' := Assign(acc, k, es[0].1);
      assert AppendAll(acc, next, es) == AppendAll(acc', next, rest);
      assert StringKeyed(rest) by {
        assert forall i | 0 <= i < |rest| :: rest[i] == es[i + 1];
      }
      AppendAllKeys(acc', next, rest);
      var goal := KeysOf(acc) + Without(KeysOf(es), KeysOf(acc));
      assert KeysOf(acc') + Without(KeysOf(rest), KeysOf(acc')) == goal by {
        var w := Without(KeysOf(rest), KeysOf(acc));
        if k in KeysOf(acc) {
          assert Without(KeysOf(es), KeysOf(acc)) == w;
        } else {
          assert Without(KeysOf(es), KeysOf(acc)) == [k] + w;
          WithoutAbsent(KeysOf(rest), KeysOf(acc), k);
          assert KeysOf(acc) + [k] + w == goal;
        }
      }
    }
  }

  /** Appending string-keyed pairs none of whose keys is present yet is
      plain concatenation. */
  lemma {:induction false} AppendAllFresh(acc: Entries, next: int, es: Entries)
    requires UniqueKeys(es) && StringKeyed(es)
    requires forall i | 0 <= i < |es| :: es[i].0 !in KeysOf(acc)
    ensures AppendAll(acc, next, es).0 == acc + es
    decreases |es|
  {
    if |es| > 0 {
      UniqueTail(es);
      var acc' := Assign(acc, es[0].0, es[0].1);
      assert acc' == acc + [es[0]] by {
        AssignAppends(acc, es[0].0, es[0].1);
      }
      KeysOfConcat(acc, [es[0]]);
      assert StringKeyed(es[1..]) by {
        assert forall i | 0 <= i < |es| - 1 :: es[1..][i] == es[i + 1];
      }
      assert forall i | 0 <= i < |es| - 1 :: es[1..][i].0 !in KeysOf(acc') by {
        forall i | 0 <= i < |es| - 1
          ensures es[1..][i].0 !in KeysOf(acc')
        {
          assert es[1..][i] == es[i + 1];
          assert es[i + 1].0 != es[0].0;
        }
      }
      AppendAllFresh(acc', next, es[1..]);
      assert acc' + es[1..] == acc + es;
    }
  }

  lemma {:induction false} AssignAppends(acc: Entries, k: Key, v: Config)
    requires k !in KeysOf(acc)
    ensures Assign(acc, k, v) == acc + [(k, v)]
    decreases |acc|
  {
    if |acc| > 0 {
      assert KeysOf(acc)[1..] == KeysOf(acc[1..]);
      AssignAppends(acc[1..], k, v);
      assert acc == [acc[0]] + acc[1..];
    }
  }

  /** `array_merge($a, $b)` at a string key: `$b`'s value if it has one,
      else `$a`'s. */
  lemma ArrayMergeLookup(a: Entries, b: Entries, s: string)
    requires UniqueKeys(a) && UniqueKeys(b)
    ensures Lookup(ArrayMerge(a, b), StrKey(s))
      == if StrKey(s) in KeysOf(b) then Lookup(b, StrKey(s)) else Lookup(a, StrKey(s))
  {
    var first := AppendAll([], 0, a);
    assert ArrayMerge(a, b) == AppendAll(first.0, first.1, b).0;
    AppendAllLookup([], 0, a, s);
    AppendAllLookup(first.0, first.1, b, s);
    LookupFound(a, StrKey(s));
  }

  /** `array_merge($a, $b)` on string keys: `$a`'s keys, then `$b`'s new ones. */
  lemma ArrayMergeKeys(a: Entries, b: Entries)
    requires UniqueKeys(a) && UniqueKeys(b) && StringKeyed(a) && StringKeyed(b)
    ensures KeysOf(ArrayMerge(a, b)) == KeysOf(a) + Without(KeysOf(b), KeysOf(a))
  {
    var first := AppendAll([], 0, a);
    assert ArrayMerge(a, b) == AppendAll(first.0, first.1, b).0;
    AppendAllFresh([], 0, a);
    assert [] + a == a;
    AppendAllKeys(first.0, first.1, b);
  }

  // ---------------------------------------------------------------------
  // The loop over the original's pairs

  /** What the loop makes of one original pair, judged against the merging
      side as it was before the loop. */
  function Settled(value: Config, merging: Entries, k: Key, path: seq<Key>): Result<Config> {
    if Isset(merging, k) then MergeValue(value, Lookup(merging, k).value, path + [k]) else Ok(value)
  }

  /** Unsetting one key does not change how any other key settles. */
  lemma SettledAfterRemove(value: Config, merging: Entries, k: Key, key: Key, path: seq<Key>)
    requires key != k
    ensures Settled(value, Remove(merging, k), key, path) == Settled(value, merging, key, path)
  {
    RemoveLookup(merging, k, key);
  }

  /** Past position `i`, every original pair settles the same way against
      the merging side the loop has reached as against the one it started with. */
  lemma SettledPastFirst(original: Entries, i: nat, merging: Entries, path: seq<Key>)
    requires UniqueKeys(original) && i < |original|
    ensures forall j | i < j < |original| ::
      Settled(original[j].1, Remove(merging, original[i].0), original[j].0, path)
      == Settled(original[j].1, merging, original[j].0, path)
  {
    forall j | i < j < |original|
      ensures Settled(original[j].1, Remove(merging, original[i].0), original[j].0, path)
        == Settled(original[j].1, merging, original[j].0, path)
    {
      SettledAfterRemove(original[j].1, merging, original[i].0, original[j].0, path);
    }
  }

  /** The loop succeeds exactly when every pair settles. */
  lemma {:induction false} WalkSucceeds(original: Entries, i: nat, merging: Entries, path: seq<Key>)
    requires UniqueKeys(original) && i <= |original|
    ensures Walk(original, i, merging, path).Ok?
      <==> forall j | i <= j < |original| :: Settled(original[j].1, merging, original[j].0, path).Ok?
    decreases |original| - i
  {
    if i < |original| {
      var k := original[i].0;
      var m' := if Isset(merging, k) then Remove(merging, k) else merging;
      WalkSucceeds(original, i + 1, m', path);
      if Isset(merging, k) {
        SettledPastFirst(original, i, merging, path);
      }
    }
  }

  /** When the loop succeeds, each pair keeps its key and holds its settled value. */
  lemma {:induction false} WalkValues(original: Entries, i: nat, merging: Entries, path: seq<Key>)
    requires UniqueKeys(original) && i <= |original|
    requires Walk(original, i, merging, path).Ok?
    ensures forall j | i <= j < |original| ::
      Settled(original[j].1, merging, original[j].0, path).Ok?
      && Walk(original, i, merging, path).value.0[j - i]
         == (original[j].0, Settled(original[j].1, merging, original[j].0, path).value)
    decreases |original| - i
  {
    if i < |original| {
      var k := original[i].0;
      var m' := if Isset(merging, k) then Remove(merging, k) else merging;
      var first := Settled(original[i].1, merging, k, path);
      var rest := Walk(original, i + 1, m', path);
      var w := Walk(original, i, merging, path).value.0;
      assert first.Ok? && rest.Ok? && w == [(k, first.value)] + rest.value.0 by {
        assert original[i] in original;
        if Isset(merging, k) {
          assert first == MergeValue(original[i].1, Lookup(merging, k).value, path + [k]);
        }
      }
      WalkValues(original, i + 1, m', path);
      if Isset(merging, k) {
        SettledPastFirst(original, i, merging, path);
      }
      forall j | i <= j < |original|
        ensures Settled(original[j].1, merging, original[j].0, path).Ok?
        ensures w[j - i] == (original[j].0, Settled(original[j].1, merging, original[j].0, path).value)
      {
        if j > i {
          assert w[j - i] == rest.value.0[j - (i + 1)];
        }
      }
    }
  }

  // ---------------------------------------------------------------------
  // What is left of the merging side

  /** The merging pairs the loop leaves in place: those whose key the
      original lacks, or whose value is null (`isset` is false for them). */
  function Unconsumed(ms: Entries, ks: seq<Key>): Entries {
    if |ms| == 0 then []
    else (if ms[0].0 in ks && ms[0].1 != Leaf(Null) then [] else [ms[0]]) + Unconsumed(ms[1..], ks)
  }

  lemma UniqueCons(e: (Key, Config), t: Entries)
    requires UniqueKeys(t) && e.0 !in KeysOf(t)
    ensures UniqueKeys([e] + t)
  {
    KeysOfAt(t);
    var es := [e] + t;
    forall i, j | 0 <= i < j < |es|
      ensures es[i].0 != es[j].0
    {
      assert es[j] == t[j - 1];
      if i > 0 {
        assert es[i] == t[i - 1];
      }
    }
  }

  lemma StringKeyedByKeys(es: Entries)
    ensures StringKeyed(es) <==> forall k | k in KeysOf(es) :: k.StrKey?
  {
    KeysOfAt(es);
  }

  /** `unset` keeps only keys that were there, and keeps them distinct. */
  lemma {:induction false} RemoveKeeps(es: Entries, k: Key)
    requires UniqueKeys(es)
    ensures UniqueKeys(Remove(es, k))
    ensures forall key | key in KeysOf(Remove(es, k)) :: key in KeysOf(es)
    decreases |es|
  {
    if |es| > 0 {
      UniqueTail(es);
      RemoveKeeps(es[1..], k);
      if es[0].0 != k {
        UniqueCons(es[0], Remove(es[1..], k));
      }
    }
  }

  /** What is left keeps only keys that were there, and keeps them distinct. */
  lemma {:induction false} UnconsumedKeeps(ms: Entries, ks: seq<Key>)
    requires UniqueKeys(ms)
    ensures UniqueKeys(Unconsumed(ms, ks))
    ensures forall key | key in KeysOf(Unconsumed(ms, ks)) :: key in KeysOf(ms)
    decreases |ms|
  {
    if |ms| > 0 {
      UniqueTail(ms);
      UnconsumedKeeps(ms[1..], ks);
      if !(ms[0].0 in ks && ms[0].1 != Leaf(Null)) {
        UniqueCons(ms[0], Unconsumed(ms[1..], ks));
        KeysOfConcat([ms[0]], Unconsumed(ms[1..], ks));
      } else {
        assert Unconsumed(ms, ks) == Unconsumed(ms[1..], ks);
      }
    }
  }

  /** A key the merging side lacks does not affect what is left. */
  lemma {:induction false} UnconsumedIgnores(ms: Entries, k: Key, ks: seq<Key>)
    requires k !in KeysOf(ms)
    ensures Unconsumed(ms, [k] + ks) == Unconsumed(ms, ks)
    decreases |ms|
  {
    if |ms| > 0 {
      UnconsumedIgnores(ms[1..], k, ks);
    }
  }

  /** Consuming a set key is unsetting it. */
  lemma {:induction false} UnconsumedRemove(ms: Entries, k: Key, ks: seq<Key>)
    requires UniqueKeys(ms) && Isset(ms, k)
    ensures Unconsumed(Remove(ms, k), ks) == Unconsumed(ms, [k] + ks)
    decreases |ms|
  {
    UniqueTail(ms);
    if ms[0].0 == k {
      RemoveAbsent(ms[1..], k);
      UnconsumedIgnores(ms[1..], k, ks);
    } else {
      UnconsumedRemove(ms[1..], k, ks);
      assert ([ms[0]] + Remove(ms[1..], k))[1..] == Remove(ms[1..], k);
    }
  }

  /** A key that is not set is not consumed. */
  lemma {:induction false} UnconsumedNotSet(ms: Entries, k: Key, ks: seq<Key>)
    requires UniqueKeys(ms) && !Isset(ms, k)
    ensures Unconsumed(ms, [k] + ks) == Unconsumed(ms, ks)
    decreases |ms|
  {
    if |ms| > 0 {
      UniqueTail(ms);
      if ms[0].0 == k {
        UnconsumedIgnores(ms[1..], k, ks);
      } else {
        UnconsumedNotSet(ms[1..], k, ks);
      }
    }
  }

  lemma {:induction false} RemoveAbsent(es: Entries, k: Key)
    requires k !in KeysOf(es)
    ensures Remove(es, k) == es
    decreases |es|
  {
    if |es| > 0 {
      RemoveAbsent(es[1..], k);
      assert es == [es[0]] + es[1..];
    }
  }

  /** Reading what is left: a consumed key is gone, any other reads as before. */
  lemma {:induction false} UnconsumedLookup(ms: Entries, ks: seq<Key>, key: Key)
    requires UniqueKeys(ms)
    ensures Lookup(Unconsumed(ms, ks), key) == if key in ks && Isset(ms, key) then None else Lookup(ms, key)
    decreases |ms|
  {
    if |ms| > 0 {
      UniqueTail(ms);
      UnconsumedLookup(ms[1..], ks, key);
      var tail := Unconsumed(ms[1..], ks);
      var consumed := ms[0].0 in ks && ms[0].1 != Leaf(Null);
      if !consumed {
        assert Unconsumed(ms, ks) == [ms[0]] + tail;
        assert ([ms[0]] + tail)[1..] == tail;
      } else {
        assert Unconsumed(ms, ks) == tail;
      }
      if ms[0].0 == key {
        LookupFound(ms[1..], key);
        UnconsumedKeeps(ms[1..], ks);
        LookupFound(tail, key);
        assert Lookup(ms, key) == Some(ms[0].1);
      }
    }
  }

  /** What the loop leaves of the merging side is exactly the unconsumed part. */
  lemma {:induction false} WalkLeftover(original: Entries, i: nat, merging: Entries, path: seq<Key>)
    requires UniqueKeys(merging) && i <= |original|
    requires Walk(original, i, merging, path).Ok?
    ensures Walk(original, i, merging, path).value.1 == Unconsumed(merging, KeysOf(original[i..]))
    decreases |original| - i
  {
    if i == |original| {
      UnconsumedNone(merging);
    } else {
      var k := original[i].0;
      assert KeysOf(original[i..]) == [k] + KeysOf(original[i + 1..]) by {
        assert original[i..][1..] == original[i + 1..];
      }
      if Isset(merging, k) {
        RemoveKeeps(merging, k);
        WalkLeftover(original, i + 1, Remove(merging, k), path);
        UnconsumedRemove(merging, k, KeysOf(original[i + 1..]));
      } else {
        WalkLeftover(original, i + 1, merging, path);
        UnconsumedNotSet(merging, k, KeysOf(original[i + 1..]));
      }
    }
  }

  lemma {:induction false} UnconsumedNone(ms: Entries)
    ensures Unconsumed(ms, []) == ms
    decreases |ms|
  {
    if |ms| > 0 {
      UnconsumedNone(ms[1..]);
      assert ms == [ms[0]] + ms[1..];
    }
  }

  // ---------------------------------------------------------------------
  // The merge of two associative arrays

  lemma LookupAt(es: Entries, j: nat)
    requires UniqueKeys(es) && j < |es|
    ensures Lookup(es, es[j].0) == Some(es[j].1)
  {
    if j > 0 {
      UniqueTail(es);
      assert es[1..][j - 1] == es[j];
      LookupAt(es[1..], j - 1);
    }
  }

  lemma UniqueSameKeys(a: Entries, b: Entries)
    requires UniqueKeys(a) && KeysOf(a) == KeysOf(b)
    ensures UniqueKeys(b)
  {
    KeysOfAt(a);
    KeysOfAt(b);
  }

  /** Merging into an associative array succeeds exactly when every original
      pair settles: no shared key pairs an array with a non-array and no
      nested merge fails. */
  lemma MergeSucceeds(original: Entries, merging: Entries, path: seq<Key>)
    requires IsAssoc(original) && UniqueKeys(original) && !Conflicts(original, merging)
    ensures Merge(original, merging, path).Ok?
      <==> forall j | 0 <= j < |original| :: Settled(original[j].1, merging, original[j].0, path).Ok?
  {
    WalkSucceeds(original, 0, merging, path);
  }

  /** Reading a string key of the merged array: a key of the original holds
      its settled value; any other key holds the merging side's value. */
  lemma MergeLookup(original: Entries, merging: Entries, path: seq<Key>, s: string)
    requires IsAssoc(original) && UniqueKeys(original) && UniqueKeys(merging) && !Conflicts(original, merging)
    requires Merge(original, merging, path).Ok?
    ensures StrKey(s) in KeysOf(original) ==>
      && Lookup(original, StrKey(s)).Some?
      && Settled(Lookup(original, StrKey(s)).value, merging, StrKey(s), path).Ok?
      && Lookup(Merge(original, merging, path).value, StrKey(s))
         == Some(Settled(Lookup(original, StrKey(s)).value, merging, StrKey(s), path).value)
    ensures StrKey(s) !in KeysOf(original) ==>
      Lookup(Merge(original, merging, path).value, StrKey(s)) == Lookup(merging, StrKey(s))
  {
    var key := StrKey(s);
    var w := Walk(original, 0, merging, path).value;
    assert original[0..] == original;
    WalkLeftover(original, 0, merging, path);
    UnconsumedKeeps(merging, KeysOf(original));
    UniqueSameKeys(original, w.0);
    ArrayMergeLookup(w.1, w.0, s);
    UnconsumedLookup(merging, KeysOf(original), key);
    if key in KeysOf(original) {
      KeysOfAt(original);
      var j :| 0 <= j < |original| && original[j].0 == key;
      WalkValues(original, 0, merging, path);
      LookupAt(original, j);
      LookupAt(w.0, j);
    }
  }

  /** A key only the merging side has keeps the merging value. */
  lemma MergingOnlyKeyKept(original: Entries, merging: Entries, path: seq<Key>, s: string)
    requires IsAssoc(original) && UniqueKeys(original) && UniqueKeys(merging) && !Conflicts(original, merging)
    requires Merge(original, merging, path).Ok? && StrKey(s) !in KeysOf(original)
    ensures Lookup(Merge(original, merging, path).value, StrKey(s)) == Lookup(merging, StrKey(s))
  {
    MergeLookup(original, merging, path, s);
  }

  /** A key of the original that the merging side does not set (absent or
      null) keeps the original value. */
  lemma OriginalKeyKept(original: Entries, merging: Entries, path: seq<Key>, s: string)
    requires IsAssoc(original) && UniqueKeys(original) && UniqueKeys(merging) && !Conflicts(original, merging)
    requires Merge(original, merging, path).Ok? && Lookup(original, StrKey(s)).Some? && !Isset(merging, StrKey(s))
    ensures Lookup(Merge(original, merging, path).value, StrKey(s)) == Lookup(original, StrKey(s))
  {
    LookupFound(original, StrKey(s));
    MergeLookup(original, merging, path, s);
  }

  /** A shared key whose original value is not an array takes the merging value. */
  lemma SharedScalarOverwritten(original: Entries, merging: Entries, path: seq<Key>, s: string, v: Value)
    requires IsAssoc(original) && UniqueKeys(original) && UniqueKeys(merging) && !Conflicts(original, merging)
    requires Merge(original, merging, path).Ok? && Isset(merging, StrKey(s))
    requires Lookup(original, StrKey(s)) == Some(Leaf(v))
    ensures Lookup(Merge(original, merging, path).value, StrKey(s)) == Lookup(merging, StrKey(s))
  {
    LookupFound(original, StrKey(s));
    MergeLookup(original, merging, path, s);
  }

  /** A shared key whose original value is an array holds the recursive merge,
      its path extended by the key (the merging value must be an array too). */
  lemma SharedArrayMerged(original: Entries, merging: Entries, path: seq<Key>, s: string, inner: Entries, incoming: Config)
    requires IsAssoc(original) && UniqueKeys(original) && UniqueKeys(merging) && !Conflicts(original, merging)
    requires Merge(original, merging, path).Ok? && Isset(merging, StrKey(s))
    requires Lookup(original, StrKey(s)) == Some(Arr(inner)) && Lookup(merging, StrKey(s)) == Some(incoming)
    ensures incoming.Arr? && Merge(inner, incoming.entries, path + [StrKey(s)]).Ok?
    ensures Lookup(Merge(original, merging, path).value, StrKey(s))
      == Some(Arr(Merge(inner, incoming.entries, path + [StrKey(s)]).value))
  {
    LookupFound(original, StrKey(s));
    MergeLookup(original, merging, path, s);
  }

  /** Merging nothing into a string-keyed associative array gives it back unchanged. */
  lemma MergeNothing(original: Entries, path: seq<Key>)
    requires IsAssoc(original) && UniqueKeys(original) && StringKeyed(original)
    ensures Merge(original, [], path) == Ok(original)
  {
    assert original[0..] == original;
    assert Walk(original, 0, [], path) == Ok((original, [])) by {
      assert forall j | 0 <= j < |original| :: Settled(original[j].1, [], original[j].0, path) == Ok(original[j].1);
      WalkSucceeds(original, 0, [], path);
      var w := Walk(original, 0, [], path).value;
      WalkValues(original, 0, [], path);
      assert |w.0| == |KeysOf(w.0)| == |original|;
      assert w.0 == original;
      WalkLeftover(original, 0, [], path);
    }
    assert ArrayMerge([], original) == original by {
      assert ArrayMerge([], original) == AppendAll([], 0, original).0;
      AppendAllFresh([], 0, original);
      assert [] + original == original;
    }
  }

  /** With integer keys the original does not come back: `array_merge`
      renumbers them, so an associative `[5 => x]` merged with nothing
      becomes the list `[0 => x]`. */
  lemma MergeNothingRenumbers(x: Config, path: seq<Key>)
    ensures Merge([(IntKey(5), x)], [], path) == Ok([(IntKey(0), x)])
  {
    var original := [(IntKey(5), x)];
    assert IsAssoc(original) by { assert original[0].0 != IntKey(0); }
    assert !Isset([], IntKey(5));
    assert Walk(original, 1, [], path) == Ok(([], []));
    assert [original[0]] + [] == original;
    assert Walk(original, 0, [], path) == Ok((original, []));
    assert original[1..] == [];
    assert AppendAll([], 0, original) == AppendAll([] + [(IntKey(0), x)], 1, []);
    assert [] + [(IntKey(0), x)] == [(IntKey(0), x)];
  }

  /** On string keys, the merged array lists what is left of the merging side
      first, in its order, then the original's other keys, in theirs. */
  lemma MergeOrder(original: Entries, merging: Entries, path: seq<Key>)
    requires IsAssoc(original) && UniqueKeys(original) && UniqueKeys(merging) && !Conflicts(original, merging)
    requires StringKeyed(original) && StringKeyed(merging)
    requires Merge(original, merging, path).Ok?
    ensures KeysOf(Merge(original, merging, path).value)
      == KeysOf(Unconsumed(merging, KeysOf(original)))
         + Without(KeysOf(original), KeysOf(Unconsumed(merging, KeysOf(original))))
  {
    var w := Walk(original, 0, merging, path).value;
    assert original[0..] == original;
    WalkLeftover(original, 0, merging, path);
    UnconsumedKeeps(merging, KeysOf(original));
    UniqueSameKeys(original, w.0);
    StringKeyedByKeys(original);
    StringKeyedByKeys(w.0);
    StringKeyedByKeys(merging);
    StringKeyedByKeys(w.1);
    ArrayMergeKeys(w.1, w.0);
  }
}
