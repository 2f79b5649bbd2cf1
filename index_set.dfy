/** The list's key set (`FxIndexSet<K>`): keys in insertion order, each once. */
module IndexSet {

  /** No key occurs twice. */
  predicate Unique<K(==)>(s: seq<K>)
  {
    forall i, j :: 0 <= i < j < |s| ==> s[i] != s[j]
  }

  /** `IndexSet::insert`: a new key goes last, a key already present keeps its place. */
  function Insert<K(==)>(keys: seq<K>, k: K): (r: seq<K>)
    ensures k in r && forall i :: 0 <= i < |keys| ==> keys[i] in r
    ensures forall i :: 0 <= i < |r| ==> r[i] in keys || r[i] == k
    ensures k in keys ==> r == keys
    ensures k !in keys ==> r == keys + [k]
  {
    if k in keys then keys else keys + [k]
  }

  /** The key set obtained by inserting `keys` one after the other. */
  function FromKeys<K(==)>(keys: seq<K>): (r: seq<K>)
    ensures Unique(r)
    ensures forall i :: 0 <= i < |r| ==> r[i] in keys
    ensures forall i :: 0 <= i < |keys| ==> keys[i] in r
    ensures |r| <= |keys|
  {
    if keys == [] then []
    else
      var front := keys[..|keys| - 1];
      assert keys == front + [keys[|keys| - 1]];
      Insert(FromKeys(front), keys[|keys| - 1])
  }

  /** Without duplicate keys the key set is the key sequence itself, so it has one entry per item. */
  lemma {:induction false} FromUniqueKeys<K>(keys: seq<K>)
    requires Unique(keys)
    ensures FromKeys(keys) == keys
  {
    if keys != [] {
      var front := keys[..|keys| - 1];
      assert keys == front + [keys[|keys| - 1]];
      FromUniqueKeys(front);
      assert keys[|keys| - 1] !in front;
    }
  }

  /** A repeated key is inserted once: the key set is then shorter than the item list. */
  lemma {:induction false} RepeatedKeyShrinks<K>(keys: seq<K>, i: nat, j: nat)
    requires i < j < |keys| && keys[i] == keys[j]
    ensures |FromKeys(keys)| < |keys|
  {
    var front := keys[..|keys| - 1];
    var last := keys[|keys| - 1];
    assert keys == front + [last];
    if j == |keys| - 1 {
      assert last in front by { assert front[i] == last; }
      assert last in FromKeys(front);
    } else {
      RepeatedKeyShrinks(front, i, j);
    }
  }
}
