/**
 An insertion-ordered map from MAC addresses, the persistent `LinkedHashMap`
 the deployment keeps its devices in. `keys` lists every key once, in the order it was first put;
 putting a key that is already present replaces its value and keeps its position.
 */
module LinkedMaps {
  import opened Model

  /** Whether no key occurs twice in `s`. */
  ghost predicate Distinct<K>(s: seq<K>)
  {
    forall i, j :: 0 <= i < j < |s| ==> s[i] != s[j]
  }

  /** A permutation of a sequence has its length and its elements. */
  lemma SameElements<T>(a: seq<T>, b: seq<T>)
    requires multiset(a) == multiset(b)
    ensures |a| == |b|
    ensures forall x :: x in a <==> x in b
  {
    assert |a| == |multiset(a)| && |b| == |multiset(b)|;
    forall x ensures x in a <==> x in b {
      assert x in a <==> x in multiset(a);
      assert x in b <==> x in multiset(b);
    }
  }

  lemma {:induction false} DistinctCountAtMostOne<T>(s: seq<T>, x: T)
    requires Distinct(s)
    ensures multiset(s)[x] <= 1
  {
    if s != [] {
      assert s == [s[0]] + s[1..];
      assert Distinct(s[1..]) by {
        forall i, j | 0 <= i < j < |s| - 1 ensures s[1..][i] != s[1..][j] {
          assert s[1..][i] == s[i + 1] && s[1..][j] == s[j + 1];
        }
      }
      DistinctCountAtMostOne(s[1..], x);
      if x == s[0] {
        assert x !in s[1..];
        assert multiset(s[1..])[x] == 0;
      }
    }
  }

  lemma RepeatCountsTwice<T>(s: seq<T>, i: nat, j: nat)
    requires i < j < |s| && s[i] == s[j]
    ensures multiset(s)[s[i]] >= 2
  {
    assert s == s[..j] + s[j..];
    assert s[i] in s[..j] && s[j] in s[j..];
    assert multiset(s) == multiset(s[..j]) + multiset(s[j..]);
  }

  /** A permutation of a sequence without repeats has no repeats either. */
  lemma DistinctPermutation<T>(a: seq<T>, b: seq<T>)
    requires multiset(a) == multiset(b) && Distinct(a)
    ensures Distinct(b)
  {
    forall i, j | 0 <= i < j < |b| ensures b[i] != b[j] {
      if b[i] == b[j] {
        RepeatCountsTwice(b, i, j);
        DistinctCountAtMostOne(a, b[i]);
      }
    }
  }

  /** The position of `k` in `s` (its first occurrence). */
  function IndexOf<K(==)>(s: seq<K>, k: K): (r: nat)
    requires k in s
    ensures r < |s| && s[r] == k
    ensures forall i :: 0 <= i < r ==> s[i] != k
  {
    if s[0] == k then 0 else 1 + IndexOf(s[1..], k)
  }

  lemma IndexOfDistinct<K>(s: seq<K>, i: nat)
    requires Distinct(s) && i < |s|
    ensures IndexOf(s, s[i]) == i
  {
  }

  /** Appending a new key leaves the positions of the old keys alone. */
  lemma {:induction false} IndexOfAppend<K>(s: seq<K>, x: K, k: K)
    requires k in s + [x]
    ensures k in s ==> IndexOf(s + [x], k) == IndexOf(s, k)
    ensures k !in s ==> IndexOf(s + [x], k) == |s|
  {
    if s != [] && s[0] != k {
      assert (s + [x])[1..] == s[1..] + [x];
      IndexOfAppend(s[1..], x, k);
    }
  }

  datatype LinkedMap<V> = LinkedMap(keys: seq<string>, values: map<string, V>)
  {
    /** The keys are exactly the map's domain, each listed once. */
    ghost predicate Valid()
    {
      && Distinct(keys)
      && (forall k :: k in keys <==> k in values)
    }

    static function Empty(): (r: LinkedMap<V>)
      ensures r.Valid() && r.IsEmpty()
    {
      LinkedMap([], map[])
    }

    predicate IsEmpty()
    {
      keys == []
    }

    function Get(k: string): (r: Option<V>)
      requires Valid()
      ensures r.Some? <==> k in keys
      ensures r.Some? ==> r.value == values[k]
    {
      if k in values then Some(values[k]) else None
    }

    /** The first key ever put. */
    function Head(): (r: string)
      requires Valid() && !IsEmpty()
      ensures r in values
      ensures IndexOf(keys, r) == 0
    {
      keys[0]
    }

    /** `k` now maps to `v`: an existing key keeps its position, a new key goes last. */
    function Put(k: string, v: V): (r: LinkedMap<V>)
      requires Valid()
      ensures r.Valid()
      ensures r.values == values[k := v]
      ensures r.keys == if k in values then keys else keys + [k]
    {
      if k in values then LinkedMap(keys, values[k := v]) else LinkedMap(keys + [k], values[k := v])
    }
  }
}
