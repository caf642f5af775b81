/** The list of names sent to the registry: the keys of
    `{ ...dependencies, ...devDependencies }` (index.js line 11).

    A JavaScript object keeps its string keys in insertion order, and assigning
    a key that is already present keeps it where it is. Spreading the two
    objects assigns every key of `dependencies`, then every key of
    `devDependencies`, into a fresh object. The objects themselves are given by
    their keys in enumeration order; the versions they map to do not influence
    the list. */
module Dependencies {
  import opened JsText

  type PackageName = string

  /** Assigning key `k` into an object whose keys are `keys`. */
  function AssignKey(keys: seq<PackageName>, k: PackageName): seq<PackageName> {
    if k in keys then keys else keys + [k]
  }

  /** Assigning the keys `ks` one after the other, as a spread does. */
  function AssignKeys(keys: seq<PackageName>, ks: seq<PackageName>): seq<PackageName>
    decreases |ks|
  {
    if |ks| == 0 then keys else AssignKeys(AssignKey(keys, ks[0]), ks[1..])
  }

  /** `Object.keys({ ...dependencies, ...devDependencies })`. */
  function MergeDependencies(dependencies: seq<PackageName>, devDependencies: seq<PackageName>): seq<PackageName> {
    AssignKeys(AssignKeys([], dependencies), devDependencies)
  }

  /** The elements of `ks` that are not in `keys`, in their order. */
  function Absent(ks: seq<PackageName>, keys: seq<PackageName>): seq<PackageName> {
    if |ks| == 0 then []
    else (if ks[0] in keys then [] else [ks[0]]) + Absent(ks[1..], keys)
  }

  lemma {:induction false} AssignKeysNoDup(keys: seq<PackageName>, ks: seq<PackageName>)
    requires NoDup(keys)
    ensures NoDup(AssignKeys(keys, ks))
    decreases |ks|
  {
    if |ks| > 0 {
      AssignKeysNoDup(AssignKey(keys, ks[0]), ks[1..]);
    }
  }

  lemma {:induction false} AssignKeysMembers(keys: seq<PackageName>, ks: seq<PackageName>)
    ensures forall x :: x in AssignKeys(keys, ks) <==> x in keys || x in ks
    decreases |ks|
  {
    if |ks| > 0 {
      AssignKeysMembers(AssignKey(keys, ks[0]), ks[1..]);
      assert ks == [ks[0]] + ks[1..];
    }
  }

  /** A key that does not occur in `ks` does not change which of them are absent. */
  lemma {:induction false} AbsentIgnoresOther(ks: seq<PackageName>, keys: seq<PackageName>, k: PackageName)
    requires k !in ks
    ensures Absent(ks, keys + [k]) == Absent(ks, keys)
    decreases |ks|
  {
    if |ks| > 0 {
      AbsentIgnoresOther(ks[1..], keys, k);
    }
  }

  /** A list without repeats: its head is not in its tail, which has none either. */
  lemma NoDupTail(ks: seq<PackageName>)
    requires |ks| > 0 && NoDup(ks)
    ensures ks[0] !in ks[1..] && NoDup(ks[1..])
  {
    forall i, j | 0 <= i < j < |ks[1..]|
      ensures ks[1..][i] != ks[1..][j]
    {
      assert ks[1..][i] == ks[i + 1] && ks[1..][j] == ks[j + 1];
    }
  }

  /** Assigning distinct keys appends the new ones, in order, and leaves the old ones in place. */
  lemma {:induction false} AssignKeysOrder(keys: seq<PackageName>, ks: seq<PackageName>)
    requires NoDup(ks)
    ensures AssignKeys(keys, ks) == keys + Absent(ks, keys)
    decreases |ks|
  {
    if |ks| > 0 {
      var k, rest := ks[0], ks[1..];
      NoDupTail(ks);
      AssignKeysOrder(AssignKey(keys, k), rest);
      assert AssignKeys(keys, ks) == AssignKey(keys, k) + Absent(rest, AssignKey(keys, k));
      if k in keys {
        assert Absent(ks, keys) == Absent(rest, keys);
      } else {
        AbsentIgnoresOther(rest, keys, k);
        assert Absent(ks, keys) == [k] + Absent(rest, keys);
        assert (keys + [k]) + Absent(rest, keys) == keys + ([k] + Absent(rest, keys));
      }
    }
  }

  lemma {:induction false} AbsentFromNothing(ks: seq<PackageName>)
    ensures Absent(ks, []) == ks
    decreases |ks|
  {
    if |ks| > 0 {
      AbsentFromNothing(ks[1..]);
      assert ks == [ks[0]] + ks[1..];
    }
  }

  /** The merged list never names a package twice. */
  lemma MergeNoDup(dependencies: seq<PackageName>, devDependencies: seq<PackageName>)
    ensures NoDup(MergeDependencies(dependencies, devDependencies))
  {
    AssignKeysNoDup([], dependencies);
    AssignKeysNoDup(AssignKeys([], dependencies), devDependencies);
  }

  /** A name is in the merged list exactly when it is a regular or a development dependency. */
  lemma MergeMembers(dependencies: seq<PackageName>, devDependencies: seq<PackageName>)
    ensures forall x :: x in MergeDependencies(dependencies, devDependencies) <==> x in dependencies || x in devDependencies
  {
    AssignKeysMembers([], dependencies);
    AssignKeysMembers(AssignKeys([], dependencies), devDependencies);
  }

  /** The merged list is every regular dependency in its order, then every
      development dependency that is not also a regular one, in its order.
      (The keys of one object are distinct.) */
  lemma MergeOrder(dependencies: seq<PackageName>, devDependencies: seq<PackageName>)
    requires NoDup(dependencies) && NoDup(devDependencies)
    ensures MergeDependencies(dependencies, devDependencies) == dependencies + Absent(devDependencies, dependencies)
  {
    AssignKeysOrder([], dependencies);
    AbsentFromNothing(dependencies);
    assert AssignKeys([], dependencies) == dependencies;
    AssignKeysOrder(dependencies, devDependencies);
  }

  /** What `Absent` means: exactly the elements of `ks` outside `keys`, each once when `ks` has no repeats. */
  lemma {:induction false} AbsentMembers(ks: seq<PackageName>, keys: seq<PackageName>)
    ensures forall x :: x in Absent(ks, keys) <==> x in ks && x !in keys
    ensures NoDup(ks) ==> NoDup(Absent(ks, keys))
    decreases |ks|
  {
    if |ks| > 0 {
      AbsentMembers(ks[1..], keys);
      assert ks == [ks[0]] + ks[1..];
      if NoDup(ks) {
        NoDupTail(ks);
        assert ks[0] !in Absent(ks[1..], keys);
      }
    }
  }
}
