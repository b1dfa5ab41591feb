/** A collection as the handlers treat it: an ordered sequence of records
    searched front to back for the first record whose key equals a given one. */
module KeyedSeq {
  import opened Records

  /** The index of the first record whose key is k, or None when no record has it. */
  function Find<T, K(==)>(s: seq<T>, key: T -> K, k: K): (r: Option<nat>)
    ensures r.Some? ==> r.value < |s| && key(s[r.value]) == k
    ensures r.Some? ==> forall j :: 0 <= j < r.value ==> key(s[j]) != k
    ensures r.None? <==> forall j :: 0 <= j < |s| ==> key(s[j]) != k
  {
    if |s| == 0 then None
    else if key(s[0]) == k then Some(0)
    else match Find(s[1..], key, k)
      case None => None
      case Some(i) => Some(i + 1)
  }

  /** The collection without the record at index i, the others kept in order. */
  function RemoveAt<T>(s: seq<T>, i: nat): (r: seq<T>)
    requires i < |s|
    ensures |r| == |s| - 1
    ensures forall j :: 0 <= j < i ==> r[j] == s[j]
    ensures forall j :: i <= j < |r| ==> r[j] == s[j + 1]
  {
    s[..i] + s[i + 1..]
  }

  /** r is s with its first element equal to x taken out, the others kept in order. */
  ghost predicate RemovesFirst<T>(s: seq<T>, x: T, r: seq<T>) {
    forall f :: 0 <= f < |s| && s[f] == x && (forall j :: 0 <= j < f ==> s[j] != x) ==>
      r == RemoveAt(s, f)
  }

  /** Every record left after removing an index was in the collection before. */
  lemma RemoveAtSubset<T>(s: seq<T>, i: nat)
    requires i < |s|
    ensures forall x :: x in RemoveAt(s, i) ==> x in s
  {
  }

  /** Python's `list.remove(x)`: drop the first element equal to x. The caller
      must know that x is present (otherwise Python raises ValueError). */
  function ListRemove<T(==)>(s: seq<T>, x: T): (r: seq<T>)
    requires x in s
    ensures |r| == |s| - 1
    ensures multiset(r) == multiset(s) - multiset{x}
    ensures RemovesFirst(s, x, r)
  {
    assert s == [s[0]] + s[1..];
    if s[0] == x then s[1..]
    else
      var rest := ListRemove(s[1..], x);
      RemovesFirstCons(s, x, rest);
      [s[0]] + rest
  }

  /** Keeping a head that differs from x in front of a removal from the tail
      is a removal from the whole. */
  lemma RemovesFirstCons<T>(s: seq<T>, x: T, rest: seq<T>)
    requires |s| > 0 && s[0] != x
    requires RemovesFirst(s[1..], x, rest)
    ensures RemovesFirst(s, x, [s[0]] + rest)
  {
    forall f | 0 <= f < |s| && s[f] == x && (forall j :: 0 <= j < f ==> s[j] != x)
      ensures [s[0]] + rest == RemoveAt(s, f)
    {
      var t := s[1..];
      assert f > 0;
      assert t[f - 1] == x;
      assert forall j :: 0 <= j < f - 1 ==> t[j] != x by {
        forall j | 0 <= j < f - 1 ensures t[j] != x { assert t[j] == s[j + 1]; }
      }
      assert rest == RemoveAt(t, f - 1);
      assert RemoveAt(s, f) == [s[0]] + RemoveAt(t, f - 1);
    }
  }

  /** No two records of the collection share a key. */
  ghost predicate KeysUnique<T, K>(s: seq<T>, key: T -> K) {
    forall a, b :: 0 <= a < b < |s| ==> key(s[a]) != key(s[b])
  }

  /** Removing by value the record found first by key removes exactly its index:
      every earlier record has another key, so none of them equals it. */
  lemma ListRemoveFirstMatch<T, K>(s: seq<T>, key: T -> K, k: K, i: nat)
    requires Find(s, key, k) == Some(i)
    ensures s[i] in s
    ensures ListRemove(s, s[i]) == RemoveAt(s, i)
  {
    forall j | 0 <= j < i ensures s[j] != s[i] {
      assert key(s[j]) != key(s[i]);
    }
    assert RemovesFirst(s, s[i], ListRemove(s, s[i]));
  }

  /** Appending a record changes a lookup only when the key was absent before
      and the new record carries it. */
  lemma {:induction false} FindAfterAppend<T, K>(s: seq<T>, key: T -> K, k: K, x: T)
    ensures Find(s + [x], key, k) ==
      if Find(s, key, k).Some? then Find(s, key, k)
      else if key(x) == k then Some(|s|)
      else None
  {
    var s' := s + [x];
    assert forall j :: 0 <= j < |s| ==> s'[j] == s[j];
    assert s'[|s|] == x;
  }

  /** Replacing the first record with key k by one with the same key leaves the lookup of k unchanged. */
  lemma {:induction false} FindAfterReplace<T, K>(s: seq<T>, key: T -> K, k: K, i: nat, x: T)
    requires Find(s, key, k) == Some(i)
    requires key(x) == k
    ensures Find(s[i := x], key, k) == Some(i)
  {
    var s' := s[i := x];
    assert forall j :: 0 <= j < i ==> s'[j] == s[j];
    assert key(s'[i]) == k;
  }

  /** With unique keys, after removing the record found for k, k is no longer found. */
  lemma FindAfterRemove<T, K>(s: seq<T>, key: T -> K, k: K, i: nat)
    requires KeysUnique(s, key)
    requires Find(s, key, k) == Some(i)
    ensures Find(RemoveAt(s, i), key, k).None?
  {
  }

  /** Removing a record keeps the keys unique. */
  lemma RemoveAtKeepsUnique<T, K>(s: seq<T>, key: T -> K, i: nat)
    requires i < |s|
    requires KeysUnique(s, key)
    ensures KeysUnique(RemoveAt(s, i), key)
  {
  }

  /** Appending keeps the keys unique exactly when the new key was not yet present. */
  lemma {:induction false} AppendKeepsUnique<T, K>(s: seq<T>, key: T -> K, x: T)
    requires KeysUnique(s, key)
    ensures KeysUnique(s + [x], key) <==> Find(s, key, key(x)).None?
  {
    var s' := s + [x];
    if Find(s, key, key(x)).Some? {
      var i := Find(s, key, key(x)).value;
      assert s'[i] == s[i] && s'[|s|] == x;
    } else {
      forall a, b | 0 <= a < b < |s'| ensures key(s'[a]) != key(s'[b]) {
        assert s'[a] == s[a];
        if b < |s| { assert s'[b] == s[b]; }
      }
    }
  }

  /** Replacing a record by one whose key no other record has keeps the keys unique. */
  lemma ReplaceKeepsUnique<T, K>(s: seq<T>, key: T -> K, i: nat, x: T)
    requires i < |s|
    requires KeysUnique(s, key)
    requires forall j :: 0 <= j < |s| && j != i ==> key(s[j]) != key(x)
    ensures KeysUnique(s[i := x], key)
  {
  }
}
