/**
 The order `findAll` lists devices in: by device type (Gateway, Switch,
 AccessPoint), then by MAC address compared as Java's `String.compareTo` does
 (character by character; a proper prefix comes first). The listing is sorted
 with an insertion sort, proved to give a sorted permutation of its input.
 */
module Ordering {
  import opened Model

  /** `a` is at most `b` in lexicographic order. */
  predicate StrLe(a: string, b: string)
  {
    if a == [] then true
    else if b == [] then false
    else if a[0] != b[0] then a[0] < b[0]
    else StrLe(a[1..], b[1..])
  }

  lemma {:induction false} StrLeRefl(a: string)
    ensures StrLe(a, a)
  {
    if a != [] { StrLeRefl(a[1..]); }
  }

  lemma {:induction false} StrLeTotal(a: string, b: string)
    ensures StrLe(a, b) || StrLe(b, a)
  {
    if a != [] && b != [] && a[0] == b[0] { StrLeTotal(a[1..], b[1..]); }
  }

  lemma {:induction false} StrLeAntisymmetric(a: string, b: string)
    requires StrLe(a, b) && StrLe(b, a)
    ensures a == b
  {
    if a != [] && b != [] {
      StrLeAntisymmetric(a[1..], b[1..]);
      assert a == [a[0]] + a[1..] && b == [b[0]] + b[1..];
    }
  }

  lemma {:induction false} StrLeTransitive(a: string, b: string, c: string)
    requires StrLe(a, b) && StrLe(b, c)
    ensures StrLe(a, c)
  {
    if a != [] && b != [] && c != [] && a[0] == b[0] && b[0] == c[0] {
      StrLeTransitive(a[1..], b[1..], c[1..]);
    }
  }

  /** The comparator of `findAll`: device type rank first, MAC address second. */
  predicate DescLe(x: NetworkingDeviceDescriptor, y: NetworkingDeviceDescriptor)
  {
    Rank(x.deviceType) < Rank(y.deviceType)
    || (Rank(x.deviceType) == Rank(y.deviceType) && StrLe(x.macAddress, y.macAddress))
  }

  lemma DescLeTotal(x: NetworkingDeviceDescriptor, y: NetworkingDeviceDescriptor)
    ensures DescLe(x, y) || DescLe(y, x)
  {
    StrLeTotal(x.macAddress, y.macAddress);
  }

  lemma DescLeTransitive(x: NetworkingDeviceDescriptor, y: NetworkingDeviceDescriptor, z: NetworkingDeviceDescriptor)
    requires DescLe(x, y) && DescLe(y, z)
    ensures DescLe(x, z)
  {
    if StrLe(x.macAddress, y.macAddress) && StrLe(y.macAddress, z.macAddress) {
      StrLeTransitive(x.macAddress, y.macAddress, z.macAddress);
    }
  }

  /** Two descriptors that are each at most the other are the same descriptor. */
  lemma DescLeAntisymmetric(x: NetworkingDeviceDescriptor, y: NetworkingDeviceDescriptor)
    requires DescLe(x, y) && DescLe(y, x)
    ensures x == y
  {
    StrLeAntisymmetric(x.macAddress, y.macAddress);
  }

  /** Two descriptors with different MAC addresses are ordered strictly. */
  lemma DescLeStrict(x: NetworkingDeviceDescriptor, y: NetworkingDeviceDescriptor)
    requires DescLe(x, y) && x.macAddress != y.macAddress
    ensures !DescLe(y, x)
  {
    if DescLe(y, x) { DescLeAntisymmetric(x, y); }
  }

  ghost predicate Sorted(s: seq<NetworkingDeviceDescriptor>)
  {
    forall i, j :: 0 <= i < j < |s| ==> DescLe(s[i], s[j])
  }

  /** `s` with `d` inserted before the first element that is not below it. */
  function Insert(d: NetworkingDeviceDescriptor, s: seq<NetworkingDeviceDescriptor>): (r: seq<NetworkingDeviceDescriptor>)
    requires Sorted(s)
    ensures Sorted(r)
    ensures multiset(r) == multiset(s) + multiset{d}
  {
    if s == [] then [d]
    else if DescLe(d, s[0]) then
      assert forall j :: 0 < j < |s| ==> DescLe(d, s[j]) by {
        forall j | 0 < j < |s| ensures DescLe(d, s[j]) { DescLeTransitive(d, s[0], s[j]); }
      }
      [d] + s
    else
      DescLeTotal(d, s[0]);
      var t := Insert(d, s[1..]);
      assert s == [s[0]] + s[1..];
      assert forall j :: 0 <= j < |t| ==> DescLe(s[0], t[j]) by {
        forall j | 0 <= j < |t| ensures DescLe(s[0], t[j]) {
          assert t[j] in multiset(t);
          assert t[j] == d || t[j] in multiset(s[1..]);
        }
      }
      [s[0]] + t
  }

  /** Insertion sort by the `findAll` comparator. */
  function Sort(s: seq<NetworkingDeviceDescriptor>): (r: seq<NetworkingDeviceDescriptor>)
    ensures Sorted(r)
    ensures multiset(r) == multiset(s)
  {
    if s == [] then []
    else
      assert s == [s[0]] + s[1..];
      Insert(s[0], Sort(s[1..]))
  }

  /** The first element of a sorted sequence is at most every element of it. */
  lemma SortedFirstIsLeast(a: seq<NetworkingDeviceDescriptor>, x: NetworkingDeviceDescriptor)
    requires Sorted(a) && x in a
    ensures DescLe(a[0], x)
  {
    var i :| 0 <= i < |a| && a[i] == x;
    if i == 0 { StrLeRefl(x.macAddress); }
  }

  lemma SortedTail(a: seq<NetworkingDeviceDescriptor>)
    requires Sorted(a) && a != []
    ensures Sorted(a[1..])
  {
    forall i, j | 0 <= i < j < |a| - 1 ensures DescLe(a[1..][i], a[1..][j]) {
      assert a[1..][i] == a[i + 1] && a[1..][j] == a[j + 1];
    }
  }

  lemma TailMultiset<T>(a: seq<T>, b: seq<T>)
    requires a != [] && b != [] && a[0] == b[0] && multiset(a) == multiset(b)
    ensures multiset(a[1..]) == multiset(b[1..])
  {
    assert a == [a[0]] + a[1..] && b == [b[0]] + b[1..];
    assert multiset(a[1..]) == multiset(a) - multiset{a[0]};
    assert multiset(b[1..]) == multiset(b) - multiset{b[0]};
  }

  /** A multiset has one sorted arrangement only, so the listing is determined by its contents. */
  lemma {:induction false} SortedUnique(a: seq<NetworkingDeviceDescriptor>, b: seq<NetworkingDeviceDescriptor>)
    requires Sorted(a) && Sorted(b) && multiset(a) == multiset(b)
    ensures a == b
  {
    if a == [] {
      assert |multiset(b)| == 0;
    } else {
      assert |b| == |multiset(b)| == |multiset(a)| == |a|;
      assert a[0] in multiset(b) && b[0] in multiset(a);
      SortedFirstIsLeast(a, b[0]);
      SortedFirstIsLeast(b, a[0]);
      DescLeAntisymmetric(a[0], b[0]);
      TailMultiset(a, b);
      SortedTail(a);
      SortedTail(b);
      SortedUnique(a[1..], b[1..]);
      assert a == [a[0]] + a[1..] && b == [b[0]] + b[1..];
    }
  }
}
