/** The hierarchical store the provider reads: a registry key is a node
    with named subkeys and named values, each in the order the store
    enumerates them. A value whose data is null (or cannot be turned into
    a string) is `None`. */
module Registry {
  import opened Wrappers
  import Text

  datatype Key = Key(subkeys: seq<(string, Key)>, values: seq<(string, Option<string>)>)

  /** The separator of a registry path such as `SOFTWARE\Microsoft\Shell`. */
  const PathSeparator: char := '\\'

  /** Opens the subkey called `name` directly below `k`: the first one
      enumerated under that name, or `None` when there is none. */
  function Child(k: Key, name: string): (r: Option<Key>)
    ensures r.None? <==> forall i :: 0 <= i < |k.subkeys| ==> k.subkeys[i].0 != name
    ensures r.Some? ==> exists i :: 0 <= i < |k.subkeys| && k.subkeys[i] == (name, r.value)
                                    && forall j :: 0 <= j < i ==> k.subkeys[j].0 != name
  {
    ChildFrom(k, name, 0)
  }

  function ChildFrom(k: Key, name: string, from: nat): (r: Option<Key>)
    requires from <= |k.subkeys|
    ensures r.None? <==> forall i :: from <= i < |k.subkeys| ==> k.subkeys[i].0 != name
    ensures r.Some? ==> exists i :: from <= i < |k.subkeys| && k.subkeys[i] == (name, r.value)
                                    && forall j :: from <= j < i ==> k.subkeys[j].0 != name
    decreases |k.subkeys| - from
  {
    if from == |k.subkeys| then None
    else if k.subkeys[from].0 == name then Some(k.subkeys[from].1)
    else ChildFrom(k, name, from + 1)
  }

  /** Follows `names` downwards from `k`, one subkey per name. */
  function Descend(k: Key, names: seq<string>): (r: Option<Key>)
    ensures r.Some? ==> Reaches(k, names, r.value)
    decreases |names|
  {
    if |names| == 0 then Some(k)
    else match Child(k, names[0])
      case None => None
      case Some(c) => Descend(c, names[1..])
  }

  /** `RegistryKey.OpenSubKey(path)`: the key at the backslash-separated
      `path` below `k`, or `None` when some step of it does not exist. */
  function OpenSubKey(k: Key, path: string): (r: Option<Key>)
    ensures r.Some? ==> Reaches(k, Text.Split(path, PathSeparator), r.value)
  {
    Descend(k, Text.Split(path, PathSeparator))
  }

  /** `owner` is found below `k` by going down the subkeys named `path`
      (any of them, should two siblings share a name). */
  ghost predicate Reaches(k: Key, path: seq<string>, owner: Key)
    decreases |path|
  {
    if |path| == 0 then owner == k
    else exists i :: 0 <= i < |k.subkeys| && k.subkeys[i].0 == path[0]
                     && Reaches(k.subkeys[i].1, path[1..], owner)
  }

  /** The registry's own guarantee: no two subkeys of a key share a name,
      at any depth. */
  ghost predicate UniqueNames(k: Key)
    decreases k
  {
    && (forall i, j :: 0 <= i < j < |k.subkeys| ==> k.subkeys[i].0 != k.subkeys[j].0)
    && (forall i :: 0 <= i < |k.subkeys| ==> UniqueNames(k.subkeys[i].1))
  }

  /** With unique names, opening an enumerated subkey by its name gives
      that very subkey. */
  lemma ChildByEnumeratedName(k: Key, i: int)
    requires UniqueNames(k) && 0 <= i < |k.subkeys|
    ensures Child(k, k.subkeys[i].0) == Some(k.subkeys[i].1)
  {
  }

  /** With unique names, a key reached by a path is the one found by
      following it. */
  lemma {:induction false} DescendComplete(k: Key, path: seq<string>, owner: Key)
    requires UniqueNames(k) && Reaches(k, path, owner)
    ensures Descend(k, path) == Some(owner)
    decreases |path|
  {
    if |path| > 0 {
      var i :| 0 <= i < |k.subkeys| && k.subkeys[i].0 == path[0] && Reaches(k.subkeys[i].1, path[1..], owner);
      ChildByEnumeratedName(k, i);
      DescendComplete(k.subkeys[i].1, path[1..], owner);
    }
  }

  /** With unique names, the section lookup fails exactly when no key sits
      at that path, and otherwise finds the key that does. */
  lemma OpenSubKeyResolves(k: Key, path: string)
    requires UniqueNames(k)
    ensures OpenSubKey(k, path).None? <==> !exists owner :: Reaches(k, Text.Split(path, PathSeparator), owner)
    ensures forall owner :: Reaches(k, Text.Split(path, PathSeparator), owner) ==> OpenSubKey(k, path) == Some(owner)
  {
    var names := Text.Split(path, PathSeparator);
    forall owner | Reaches(k, names, owner) ensures OpenSubKey(k, path) == Some(owner) {
      DescendComplete(k, names, owner);
    }
    match OpenSubKey(k, path)
    case Some(found) =>
      assert Reaches(k, names, found);
    case None =>
  }

  /** Number of values in the subtree of `k`, its own included. */
  function ValueCount(k: Key): nat
    decreases k, 1, 0
  {
    |k.values| + SubkeyValueCount(k, |k.subkeys|)
  }

  /** Number of values below the first `n` subkeys of `k`. */
  function SubkeyValueCount(k: Key, n: nat): nat
    requires n <= |k.subkeys|
    decreases k, 0, n
  {
    if n == 0 then 0
    else SubkeyValueCount(k, n - 1) + ValueCount(k.subkeys[n - 1].1)
  }
}
