/**
 The devices of one network deployment, kept as a single rooted tree.

 The manager's one field, `storage`, is an insertion-ordered map from MAC
 address to an entry holding the device type and the set of MAC addresses
 directly connected below that device. Registration grows the map one device
 at a time. Each read operation is a function of the current `storage` value,
 which the source keeps as an immutable persistent map and replaces on every
 write.
 */
module Deployment {
  import opened Model
  import opened LinkedMaps
  import opened Ordering

  /** What the deployment stores per device: its type and its direct downlinks. */
  datatype NetworkingDeviceEntry = NetworkingDeviceEntry(deviceType: DeviceType, children: set<string>)
  {
    /** A fresh entry: the given type and no downlinks yet. */
    static function Empty(t: DeviceType): (e: NetworkingDeviceEntry)
      ensures e.deviceType == t && |e.children| == 0
    {
      NetworkingDeviceEntry(t, {})
    }

    /** The same device with one more downlink; adding a MAC that is already there changes nothing. */
    function WithNewChild(mac: string): (e: NetworkingDeviceEntry)
      ensures e.deviceType == deviceType
      ensures mac in e.children && children <= e.children && e.children - {mac} <= children
      ensures mac in children ==> e == this
    {
      NetworkingDeviceEntry(deviceType, children + {mac})
    }
  }

  type Storage = LinkedMap<NetworkingDeviceEntry>

  /** The direct downlinks of `p`; none when `p` is not registered. */
  function Children(st: Storage, p: string): set<string>
  {
    if p in st.values then st.values[p].children else {}
  }

  /**
   The single-tree invariant: every downlink is a registered device inserted
   after its uplink, every device but the first has an uplink inserted before
   it, and no device has two uplinks.
   */
  ghost predicate TreeShaped(st: Storage)
  {
    && st.Valid()
    && (forall p, c :: c in Children(st, p) ==>
          p in st.keys && c in st.keys && IndexOf(st.keys, p) < IndexOf(st.keys, c))
    && (forall j :: 0 < j < |st.keys| ==> HasEarlierUplink(st, j))
    && (forall p1, p2, c :: c in Children(st, p1) && c in Children(st, p2) ==> p1 == p2)
  }

  /** The device at position `j` is a direct downlink of one registered before it. */
  ghost predicate HasEarlierUplink(st: Storage, j: nat)
    requires j < |st.keys|
  {
    exists i :: 0 <= i < j && st.keys[j] in Children(st, st.keys[i])
  }

  /** The first device, registered without an uplink, starts a one-node tree. */
  lemma RootIsTree(t: DeviceType, mac: string)
    ensures TreeShaped(LinkedMap.Empty().Put(mac, NetworkingDeviceEntry.Empty(t)))
  {
    var st := LinkedMap.Empty().Put(mac, NetworkingDeviceEntry.Empty(t));
    assert st.keys == [mac];
  }

  /**
   Attaching a new device below a registered uplink, in the two steps the
   source takes (update the uplink's entry, then put the new entry), keeps the
   single-tree invariant.
   */
  lemma AttachPreservesTree(st: Storage, t: DeviceType, mac: string, uplink: string)
    requires TreeShaped(st) && mac !in st.values && uplink in st.values
    ensures TreeShaped(st.Put(uplink, st.values[uplink].WithNewChild(mac)).Put(mac, NetworkingDeviceEntry.Empty(t)))
  {
    var s2 := st.Put(uplink, st.values[uplink].WithNewChild(mac)).Put(mac, NetworkingDeviceEntry.Empty(t));
    assert s2.keys == st.keys + [mac];
    forall p ensures Children(s2, p) == AttachedChildren(st, mac, uplink, p) {}
    AttachedOrder(st, s2, mac, uplink);
    AttachedUplinks(st, s2, mac, uplink);
  }

  /** The downlinks of `p` once `mac` is attached below `uplink`. */
  ghost function AttachedChildren(st: Storage, mac: string, uplink: string, p: string): set<string>
  {
    if p == uplink then Children(st, p) + {mac} else if p == mac then {} else Children(st, p)
  }

  lemma AttachedOrder(st: Storage, s2: Storage, mac: string, uplink: string)
    requires TreeShaped(st) && mac !in st.values && uplink in st.values
    requires s2.keys == st.keys + [mac]
    requires forall p :: Children(s2, p) == AttachedChildren(st, mac, uplink, p)
    ensures forall p, c :: c in Children(s2, p) ==>
              p in s2.keys && c in s2.keys && IndexOf(s2.keys, p) < IndexOf(s2.keys, c)
  {
    forall p, c | c in Children(s2, p)
      ensures p in s2.keys && c in s2.keys && IndexOf(s2.keys, p) < IndexOf(s2.keys, c)
    {
      assert c in AttachedChildren(st, mac, uplink, p);
      IndexOfAppend(st.keys, mac, p);
      IndexOfAppend(st.keys, mac, c);
    }
  }

  lemma AttachedUplinks(st: Storage, s2: Storage, mac: string, uplink: string)
    requires TreeShaped(st) && mac !in st.values && uplink in st.values
    requires s2.keys == st.keys + [mac]
    requires forall p :: Children(s2, p) == AttachedChildren(st, mac, uplink, p)
    ensures forall j :: 0 < j < |s2.keys| ==> HasEarlierUplink(s2, j)
    ensures forall p1, p2, c :: c in Children(s2, p1) && c in Children(s2, p2) ==> p1 == p2
  {
    forall j | 0 < j < |s2.keys|
      ensures HasEarlierUplink(s2, j)
    {
      if j < |st.keys| {
        assert HasEarlierUplink(st, j);
        var i :| 0 <= i < j && st.keys[j] in Children(st, st.keys[i]);
        assert s2.keys[i] == st.keys[i] && s2.keys[j] == st.keys[j];
        assert st.keys[j] in AttachedChildren(st, mac, uplink, st.keys[i]);
      } else {
        var i := IndexOf(st.keys, uplink);
        assert s2.keys[i] == uplink && s2.keys[j] == mac;
        assert mac in AttachedChildren(st, mac, uplink, uplink);
      }
    }
    forall p1, p2, c | c in Children(s2, p1) && c in Children(s2, p2)
      ensures p1 == p2
    {
      assert c in AttachedChildren(st, mac, uplink, p1) && c in AttachedChildren(st, mac, uplink, p2);
    }
  }

  /** The device registered first is nobody's downlink. */
  lemma HeadHasNoUplink(st: Storage, p: string)
    requires TreeShaped(st) && !st.IsEmpty()
    ensures st.Head() !in Children(st, p)
  {
  }

  /** A device other than the first has exactly one uplink, registered before it. */
  lemma {:induction false} UniqueUplink(st: Storage, c: string)
    requires TreeShaped(st) && c in st.values && c != st.Head()
    ensures exists p :: c in Children(st, p) && IndexOf(st.keys, p) < IndexOf(st.keys, c)
    ensures forall p1, p2 :: c in Children(st, p1) && c in Children(st, p2) ==> p1 == p2
  {
    var j := IndexOf(st.keys, c);
    assert j > 0 && HasEarlierUplink(st, j);
    var i :| 0 <= i < j && st.keys[j] in Children(st, st.keys[i]);
  }

  // ---------------------------------------------------------------------------
  // The flat listing and single-device lookup

  /**
   Every stored (MAC address, type) pair, in insertion order: one descriptor per
   registered device, carrying that device's stored type, and no MAC twice.
   */
  function Projection(st: Storage): (r: seq<NetworkingDeviceDescriptor>)
    requires st.Valid()
    ensures |r| == |st.keys| && |r| == |st.values|
    ensures forall i :: 0 <= i < |r| ==> r[i].macAddress == st.keys[i]
    ensures forall d :: d in r <==> d.macAddress in st.values && d.deviceType == st.values[d.macAddress].deviceType
    ensures Distinct(r)
  {
    var r := seq(|st.keys|, i requires 0 <= i < |st.keys| =>
      NetworkingDeviceDescriptor(st.keys[i], st.values[st.keys[i]].deviceType));
    ListingFacts(st, r);
    r
  }

  /**
   `findAll`: every registered device once, as a descriptor, ordered by type
   (Gateway, Switch, AccessPoint) and then by MAC address.
   */
  function FindAll(st: Storage): (r: seq<NetworkingDeviceDescriptor>)
    requires st.Valid()
    ensures Sorted(r)
    ensures multiset(r) == multiset(Projection(st))
    ensures |r| == |st.values|
    ensures forall d :: d in r <==> d.macAddress in st.values && d.deviceType == st.values[d.macAddress].deviceType
    ensures forall i, j :: 0 <= i < j < |r| ==> r[i].macAddress != r[j].macAddress
  {
    var r := Sort(Projection(st));
    SameElements(r, Projection(st));
    DistinctPermutation(Projection(st), r);
    r
  }

  /** A sequence that pairs each key, in order, with its stored type has the facts `Projection` promises. */
  lemma ListingFacts(st: Storage, pr: seq<NetworkingDeviceDescriptor>)
    requires st.Valid() && |pr| == |st.keys|
    requires forall i :: 0 <= i < |pr| ==> pr[i] == NetworkingDeviceDescriptor(st.keys[i], st.values[st.keys[i]].deviceType)
    ensures |pr| == |st.values|
    ensures forall d :: d in pr <==> d.macAddress in st.values && d.deviceType == st.values[d.macAddress].deviceType
    ensures Distinct(pr)
  {
    forall d: NetworkingDeviceDescriptor | d.macAddress in st.values && d.deviceType == st.values[d.macAddress].deviceType
      ensures d in pr
    {
      var i := IndexOf(st.keys, d.macAddress);
      assert pr[i] == d;
    }
    DistinctCard(st.keys, st.values.Keys);
  }

  lemma {:induction false} DistinctCard(s: seq<string>, ks: set<string>)
    requires Distinct(s) && forall k :: k in s <==> k in ks
    ensures |s| == |ks|
  {
    if s != [] {
      var t := s[1..];
      assert forall k :: k in t <==> k in ks - {s[0]} by {
        assert s == [s[0]] + t;
      }
      DistinctCard(t, ks - {s[0]});
    } else {
      assert ks == {};
    }
  }

  /** Any sorted arrangement of the stored pairs is the one `findAll` returns. */
  lemma FindAllIsTheSortedListing(st: Storage, s: seq<NetworkingDeviceDescriptor>)
    requires st.Valid() && Sorted(s) && multiset(s) == multiset(Projection(st))
    ensures FindAll(st) == s
  {
    SortedUnique(FindAll(st), s);
  }

  /** `findAll` lists strictly increasing descriptors: no two compare equal. */
  lemma FindAllStrictlyOrdered(st: Storage, i: nat, j: nat)
    requires st.Valid() && i < j < |FindAll(st)|
    ensures DescLe(FindAll(st)[i], FindAll(st)[j]) && !DescLe(FindAll(st)[j], FindAll(st)[i])
  {
    DescLeStrict(FindAll(st)[i], FindAll(st)[j]);
  }

  /** `get`: the descriptor of one registered device. */
  function Get(st: Storage, mac: string): (r: Result<NetworkingDeviceDescriptor>)
    requires st.Valid()
    ensures r.Ok? <==> mac in st.values
    ensures r.Ok? ==> r.value.macAddress == mac && r.value.deviceType == st.values[mac].deviceType
    ensures r.Err? ==> r.failure == DeviceNotFound
  {
    match st.Get(mac)
    case Some(entry) => Ok(NetworkingDeviceDescriptor(mac, entry.deviceType))
    case None => Err(DeviceNotFound)
  }

  /** `get` finds exactly the descriptors `findAll` lists. */
  lemma GetAgreesWithFindAll(st: Storage, d: NetworkingDeviceDescriptor)
    requires st.Valid()
    ensures d in FindAll(st) <==> Get(st, d.macAddress) == Ok(d)
  {
  }

  // ---------------------------------------------------------------------------
  // Subtrees

  /** The node of a registered device, holding the nodes of its downlinks, recursively. */
  function SubtreeNode(st: Storage, mac: string): (n: NetworkingDeviceNode)
    requires TreeShaped(st) && mac in st.values
    ensures n.macAddress == mac && n.deviceType == st.values[mac].deviceType
    ensures (set d | d in n.downlinkDevices :: d.macAddress) == Children(st, mac)
    decreases |st.keys| - IndexOf(st.keys, mac)
  {
    var node := NetworkingDeviceNode(mac, st.values[mac].deviceType,
      set c | c in Children(st, mac) :: SubtreeNode(st, c));
    assert forall c :: c in Children(st, mac) ==> SubtreeNode(st, c) in node.downlinkDevices;
    node
  }

  /** `getDeviceSubtree`: the subtree below a device, or not-found. */
  function GetDeviceSubtree(st: Storage, mac: string): (r: Result<NetworkingDeviceNode>)
    requires TreeShaped(st)
    ensures r.Ok? <==> mac in st.values
    ensures r.Ok? ==> r.value.macAddress == mac
    ensures r.Err? ==> r.failure == DeviceNotFound
  {
    if mac in st.values then Ok(SubtreeNode(st, mac)) else Err(DeviceNotFound)
  }

  /** `getDeviceTree`: the subtree of the first-registered device, or not-found when there is none. */
  function GetDeviceTree(st: Storage): (r: Result<NetworkingDeviceNode>)
    requires TreeShaped(st)
    ensures r.Ok? <==> !st.IsEmpty()
    ensures r.Ok? ==> r.value.macAddress == st.keys[0]
    ensures r.Err? ==> r.failure == EmptyDeployment
  {
    if st.IsEmpty() then Err(EmptyDeployment) else GetDeviceSubtree(st, st.Head())
  }

  /** A chain of registered devices, each a direct downlink of the one before. */
  ghost predicate IsDownlinkPath(st: Storage, p: seq<string>)
  {
    && |p| > 0
    && p[0] in st.values
    && forall i :: 0 <= i < |p| - 1 ==> p[i + 1] in Children(st, p[i])
  }

  /** `to` is `from` or lies below it. */
  ghost predicate Reaches(st: Storage, from: string, to: string)
  {
    exists p :: IsDownlinkPath(st, p) && p[0] == from && p[|p| - 1] == to
  }

  /** A MAC address below the top of a subtree lies in the subtree of one of its downlinks. */
  lemma SubtreeMacBelow(st: Storage, m: string, x: string) returns (c: string)
    requires TreeShaped(st) && m in st.values && x in Macs(SubtreeNode(st, m)) && x != m
    ensures c in Children(st, m) && x in Macs(SubtreeNode(st, c))
  {
    var d := SubtreeDownlinkHolding(st, m, x);
    c := DownlinkNodeSource(st, m, d);
  }

  lemma SubtreeDownlinkHolding(st: Storage, m: string, x: string) returns (d: NetworkingDeviceNode)
    requires TreeShaped(st) && m in st.values && x in Macs(SubtreeNode(st, m)) && x != m
    ensures d in SubtreeNode(st, m).downlinkDevices && x in Macs(d)
  {
    d :| d in SubtreeNode(st, m).downlinkDevices && x in Macs(d);
  }

  lemma DownlinkNodeSource(st: Storage, m: string, d: NetworkingDeviceNode) returns (c: string)
    requires TreeShaped(st) && m in st.values && d in SubtreeNode(st, m).downlinkDevices
    ensures c in Children(st, m) && c in st.values && d == SubtreeNode(st, c)
  {
    c :| c in Children(st, m) && d == SubtreeNode(st, c);
  }

  /** A node inside the subtree of `m` is the subtree of one of `m`'s downlinks, or is that of `m` itself. */
  lemma SubtreeNodeBelow(st: Storage, m: string, n: NetworkingDeviceNode) returns (c: string)
    requires TreeShaped(st) && m in st.values && n in Nodes(SubtreeNode(st, m)) && n != SubtreeNode(st, m)
    ensures c in Children(st, m) && c in st.values && n in Nodes(SubtreeNode(st, c))
  {
    var d :| d in SubtreeNode(st, m).downlinkDevices && n in Nodes(d);
    c := DownlinkNodeSource(st, m, d);
  }

  /**
   Every node anywhere in the subtree of `m` is the subtree of its own MAC
   address: it carries that device's type and exactly its downlinks.
   */
  lemma {:induction false} EveryNodeMatchesStorage(st: Storage, m: string, n: NetworkingDeviceNode)
    requires TreeShaped(st) && m in st.values && n in Nodes(SubtreeNode(st, m))
    ensures n.macAddress in st.values && n == SubtreeNode(st, n.macAddress)
    ensures n.deviceType == st.values[n.macAddress].deviceType
    ensures (set d | d in n.downlinkDevices :: d.macAddress) == Children(st, n.macAddress)
    decreases |st.keys| - IndexOf(st.keys, m)
  {
    if n != SubtreeNode(st, m) {
      var c := SubtreeNodeBelow(st, m, n);
      EveryNodeMatchesStorage(st, c, n);
    }
  }

  lemma PrependToPath(st: Storage, m: string, q: seq<string>)
    requires IsDownlinkPath(st, q) && m in st.values && q[0] in Children(st, m)
    ensures IsDownlinkPath(st, [m] + q)
  {
    var p := [m] + q;
    forall i | 0 <= i < |p| - 1 ensures p[i + 1] in Children(st, p[i]) {
      if i > 0 { assert p[i] == q[i - 1] && p[i + 1] == q[i]; }
    }
  }

  /** Every MAC address in the subtree of `m` lies on a downlink path from `m`. */
  lemma {:induction false} PathToSubtreeMac(st: Storage, m: string, x: string) returns (p: seq<string>)
    requires TreeShaped(st) && m in st.values && x in Macs(SubtreeNode(st, m))
    ensures IsDownlinkPath(st, p) && p[0] == m && p[|p| - 1] == x
    decreases |st.keys| - IndexOf(st.keys, m)
  {
    if x == m {
      p := [m];
    } else {
      var c := SubtreeMacBelow(st, m, x);
      var q := PathToSubtreeMac(st, c, x);
      PrependToPath(st, m, q);
      p := [m] + q;
    }
  }

  /** The last device on a downlink path lies in the subtree of the first. */
  lemma {:induction false} PathEndInSubtree(st: Storage, p: seq<string>)
    requires TreeShaped(st) && IsDownlinkPath(st, p)
    ensures p[|p| - 1] in Macs(SubtreeNode(st, p[0]))
    decreases |p|
  {
    if |p| > 1 {
      var q := p[1..];
      assert forall i :: 0 <= i < |q| ==> q[i] == p[i + 1];
      assert q[0] in Children(st, p[0]);
      assert IsDownlinkPath(st, q);
      PathEndInSubtree(st, q);
      assert SubtreeNode(st, q[0]) in SubtreeNode(st, p[0]).downlinkDevices;
    }
  }

  /** The MAC addresses in the subtree of `m` are exactly those reached from `m` through downlinks. */
  lemma SubtreeIsReachableSet(st: Storage, m: string, x: string)
    requires TreeShaped(st) && m in st.values
    ensures x in Macs(SubtreeNode(st, m)) <==> Reaches(st, m, x)
  {
    if x in Macs(SubtreeNode(st, m)) {
      var p := PathToSubtreeMac(st, m, x);
    }
    if Reaches(st, m, x) {
      var p :| IsDownlinkPath(st, p) && p[0] == m && p[|p| - 1] == x;
      PathEndInSubtree(st, p);
    }
  }

  /**
   Insertion positions strictly increase along a downlink path, so no device
   lies below itself and a path is never longer than the deployment.
   */
  lemma {:induction false} PathFollowsInsertionOrder(st: Storage, p: seq<string>)
    requires TreeShaped(st) && IsDownlinkPath(st, p)
    ensures forall i :: 0 <= i < |p| ==> p[i] in st.keys
    ensures IndexOf(st.keys, p[0]) + |p| - 1 <= IndexOf(st.keys, p[|p| - 1])
    ensures |p| <= |st.keys|
    ensures |p| > 1 ==> p[0] != p[|p| - 1]
    decreases |p|
  {
    if |p| > 1 {
      var q := p[..|p| - 1];
      assert forall i :: 0 <= i < |q| ==> q[i] == p[i];
      assert IsDownlinkPath(st, q);
      PathFollowsInsertionOrder(st, q);
      assert p[|p| - 1] in Children(st, p[|p| - 2]);
    }
  }

  /** Every registered device is reached from the first one. */
  lemma {:induction false} ReachedFromHead(st: Storage, j: nat)
    requires TreeShaped(st) && j < |st.keys|
    ensures Reaches(st, st.keys[0], st.keys[j])
    decreases j
  {
    if j == 0 {
      assert IsDownlinkPath(st, [st.keys[0]]);
    } else {
      assert HasEarlierUplink(st, j);
      var i :| 0 <= i < j && st.keys[j] in Children(st, st.keys[i]);
      ReachedFromHead(st, i);
      var p :| IsDownlinkPath(st, p) && p[0] == st.keys[0] && p[|p| - 1] == st.keys[i];
      var p' := p + [st.keys[j]];
      assert forall k :: 0 <= k < |p| ==> p'[k] == p[k];
      assert IsDownlinkPath(st, p');
    }
  }

  /** The device tree holds every registered device and nothing else. */
  lemma DeviceTreeCoversDeployment(st: Storage)
    requires TreeShaped(st) && !st.IsEmpty()
    ensures GetDeviceTree(st).Ok?
    ensures Macs(GetDeviceTree(st).value) == st.values.Keys
  {
    var tree := GetDeviceTree(st).value;
    forall x | x in Macs(tree) ensures x in st.values {
      var p := PathToSubtreeMac(st, st.keys[0], x);
      PathFollowsInsertionOrder(st, p);
    }
    forall x | x in st.values ensures x in Macs(tree) {
      ReachedFromHead(st, IndexOf(st.keys, x));
      SubtreeIsReachableSet(st, st.keys[0], x);
    }
  }

  /** Every read operation on an empty deployment: nothing listed, nothing found. */
  lemma EmptyDeploymentReads(mac: string)
    ensures FindAll(LinkedMap.Empty()) == []
    ensures Get(LinkedMap.Empty(), mac) == Err(DeviceNotFound)
    ensures GetDeviceSubtree(LinkedMap.Empty(), mac) == Err(DeviceNotFound)
    ensures GetDeviceTree(LinkedMap.Empty()) == Err(EmptyDeployment)
  {
    RootIsTree(Gateway, mac);
    assert TreeShaped(LinkedMap<NetworkingDeviceEntry>.Empty());
  }

  // ---------------------------------------------------------------------------
  // The manager

  class NetworkDeploymentManager {
    var storage: Storage

    ghost predicate Valid()
      reads this
    {
      TreeShaped(storage)
    }

    constructor ()
      ensures Valid() && storage == LinkedMap.Empty()
    {
      storage := LinkedMap.Empty();
      new;
      EmptyDeploymentReads("");
    }

    /**
     `registerDevice`: adds a device below `uplinkMacAddress`, or as the root
     when no uplink is given. Fails on a duplicate MAC address, on a second
     root and on an unknown uplink, leaving `storage` unchanged.
     */
    method RegisterDevice(deviceType: DeviceType, macAddress: string, uplinkMacAddress: Option<string>)
      returns (r: Outcome)
      requires Valid()
      modifies this
      ensures Valid()
      ensures macAddress in old(storage.values) ==> r == Fail(DuplicateDevice)
      ensures macAddress !in old(storage.values) && uplinkMacAddress.None? && !old(storage.IsEmpty())
        ==> r == Fail(RootAlreadyExists)
      ensures macAddress !in old(storage.values) && uplinkMacAddress.Some? && uplinkMacAddress.value !in old(storage.values)
        ==> r == Fail(UplinkNotFound)
      ensures r.Pass? <==>
                (macAddress !in old(storage.values) &&
                 if uplinkMacAddress.None? then old(storage.IsEmpty()) else uplinkMacAddress.value in old(storage.values))
      ensures r.Fail? ==> storage == old(storage)
      ensures r.Pass? ==> storage.keys == old(storage.keys) + [macAddress]
      ensures r.Pass? ==> storage.values[macAddress] == NetworkingDeviceEntry(deviceType, {})
      ensures r.Pass? && uplinkMacAddress.Some? ==>
        var u := uplinkMacAddress.value;
        storage.values[u] == NetworkingDeviceEntry(old(storage.values[u]).deviceType, old(storage.values[u]).children + {macAddress})
      ensures r.Pass? ==> storage.values.Keys == old(storage.values.Keys) + {macAddress}
      ensures r.Pass? ==> forall k :: k in old(storage.values) && Some(k) != uplinkMacAddress ==>
        storage.values[k] == old(storage.values[k])
    {
      if storage.Get(macAddress).Some? {
        return Fail(DuplicateDevice);
      }
      if uplinkMacAddress.None? && !storage.IsEmpty() {
        return Fail(RootAlreadyExists);
      }
      if uplinkMacAddress.Some? {
        var uplinkEntryOpt := storage.Get(uplinkMacAddress.value);
        if uplinkEntryOpt.None? {
          return Fail(UplinkNotFound);
        }
        AttachPreservesTree(storage, deviceType, macAddress, uplinkMacAddress.value);
        var updatedUplinkEntry := uplinkEntryOpt.value.WithNewChild(macAddress);
        storage := storage.Put(uplinkMacAddress.value, updatedUplinkEntry);
      } else {
        assert storage == LinkedMap.Empty();
        RootIsTree(deviceType, macAddress);
      }
      storage := storage.Put(macAddress, NetworkingDeviceEntry.Empty(deviceType));
      return Pass;
    }

    /** `reset`: forgets every device. */
    method Reset()
      modifies this
      ensures Valid() && storage == LinkedMap.Empty()
    {
      storage := LinkedMap.Empty();
      EmptyDeploymentReads("");
    }
  }
}

/**
 What a caller can conclude from the contracts alone: a gateway, a switch
 below it and an access point below the switch are listed in type order, the
 tree holds all three below the gateway, and the registry refuses a second
 root, a duplicate and an unknown uplink without changing.
 */
module DeploymentClient {
  import opened Model
  import opened Deployment

  method ExampleDeployment()
  {
    var aa := "AA:AA:AA:AA:AA:AA";
    var m := RegisterExample();
    ExampleReads(m.storage);
    ExampleRefusals(m);
    m.Reset();
    assert FindAll(m.storage) == [] by { EmptyDeploymentReads(aa); }
  }

  /** A gateway, a switch below it and an access point below the switch, registered into a new manager. */
  method RegisterExample() returns (m: NetworkDeploymentManager)
    ensures fresh(m) && m.Valid()
    ensures m.storage.keys == ["AA:AA:AA:AA:AA:AA", "BB:BB:BB:BB:BB:BB", "CC:CC:CC:CC:CC:CC"]
    ensures m.storage.values["AA:AA:AA:AA:AA:AA"].deviceType == Gateway
    ensures m.storage.values["BB:BB:BB:BB:BB:BB"].deviceType == Switch
    ensures m.storage.values["CC:CC:CC:CC:CC:CC"].deviceType == AccessPoint
  {
    var aa, bb, cc := "AA:AA:AA:AA:AA:AA", "BB:BB:BB:BB:BB:BB", "CC:CC:CC:CC:CC:CC";
    m := new NetworkDeploymentManager();
    var r := m.RegisterDevice(Gateway, aa, None);
    assert r == Pass && m.storage.keys == [aa];
    r := m.RegisterDevice(Switch, bb, Some(aa));
    assert r == Pass && m.storage.keys == [aa, bb];
    r := m.RegisterDevice(AccessPoint, cc, Some(bb));
    assert r == Pass && m.storage.keys == [aa, bb, cc];
  }

  method ExampleRefusals(m: NetworkDeploymentManager)
    requires m.Valid() && !m.storage.IsEmpty()
    requires "AA:AA:AA:AA:AA:AA" in m.storage.values && "DD:DD:DD:DD:DD:DD" !in m.storage.values
    modifies m
  {
    var before := m.storage;
    var r := m.RegisterDevice(Switch, "DD:DD:DD:DD:DD:DD", None);
    assert r == Fail(RootAlreadyExists) && m.storage == before;
    r := m.RegisterDevice(Switch, "AA:AA:AA:AA:AA:AA", Some("AA:AA:AA:AA:AA:AA"));
    assert r == Fail(DuplicateDevice) && m.storage == before;
    r := m.RegisterDevice(Switch, "DD:DD:DD:DD:DD:DD", Some("DD:DD:DD:DD:DD:DD"));
    assert r == Fail(UplinkNotFound) && m.storage == before;
  }

  method ExampleReads(st: Storage)
    requires TreeShaped(st) && st.keys == ["AA:AA:AA:AA:AA:AA", "BB:BB:BB:BB:BB:BB", "CC:CC:CC:CC:CC:CC"]
    requires st.values["AA:AA:AA:AA:AA:AA"].deviceType == Gateway
    requires st.values["BB:BB:BB:BB:BB:BB"].deviceType == Switch
    requires st.values["CC:CC:CC:CC:CC:CC"].deviceType == AccessPoint
  {
    var aa, bb, cc := "AA:AA:AA:AA:AA:AA", "BB:BB:BB:BB:BB:BB", "CC:CC:CC:CC:CC:CC";
    var listing := [NetworkingDeviceDescriptor(aa, Gateway), NetworkingDeviceDescriptor(bb, Switch),
                    NetworkingDeviceDescriptor(cc, AccessPoint)];
    var pr := Projection(st);
    assert pr[0] in pr && pr[1] in pr && pr[2] in pr;
    assert pr == listing;
    FindAllIsTheSortedListing(st, listing);
    assert FindAll(st) == listing;

    DeviceTreeCoversDeployment(st);
    var tree := GetDeviceTree(st);
    assert tree.Ok? && tree.value.macAddress == aa;
    assert Macs(tree.value) == {aa, bb, cc};
  }
}
