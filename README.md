# Network deployment registry, in Dafny

This project models the core of a small service that tracks the networking
devices of one deployment: gateways, switches and access points, each
identified by its MAC address and connected to an uplink device. The core has
two parts.

- **`NetworkDeploymentManager`** keeps one field, `storage`. It is an
  insertion-ordered map (vavr's persistent `LinkedHashMap`) from MAC address to
  an entry holding the device type and the set of direct downlink MAC addresses.
  Registration grows the map one device at a time and keeps it a single rooted
  tree. The read operations list all devices in a fixed order, look one up, or
  build a device's subtree. `reset` empties the map.
- **`MacAddressValidator`** accepts exactly the strings that match
  `^([0-9A-Fa-f]{2}[:-]){5}[0-9A-Fa-f]{2}$`.

Modules, one per concern:

- `Model` (`model.dfy`): device types and their explicit `Rank`, the output
  views `NetworkingDeviceDescriptor` and `NetworkingDeviceNode`, and the
  failures. There is one `Failure` constructor per kind of failure, and its
  comment names the Java exception class. `DeviceNotFound` covers both lookups
  that can miss, `get` and `getDeviceSubtree`. `InvalidMacAddress` is the
  validator's failure, not the registry's. `Outcome` models a `void` method and `Result`
  one that returns a value. `Macs` and `Nodes` collect what a node tree holds.
- `LinkedMaps` (`linked_map.dfy`): the insertion-ordered map as a value
  (`keys` in insertion order, and `values`). `Put` on a present key keeps that
  key's position, as vavr's `LinkedHashMap.put` does. This is why the head of
  `storage` stays the first device registered.
- `Ordering` (`ordering.dfy`): the `findAll` comparator. It orders by type rank,
  then by MAC address, compared as Java's `String.compareTo` compares. It also
  holds an insertion sort, proved to return a sorted permutation, and a proof
  that a multiset has exactly one sorted arrangement.
- `Deployment` (`deployment.dfy`): the entry type, the single-tree invariant
  `TreeShaped`, the read operations and the `NetworkDeploymentManager` class.
  The class's `RegisterDevice` and `Reset` reassign `storage` step by step, as
  the source does. The source's `storage` is an immutable value that each write
  replaces. So every read operation (`findAll`, `get`, `getDeviceTree`,
  `getDeviceSubtree`) is modelled as a function of the current `storage` value:
  `m.findAll()` is `FindAll(m.storage)`.
- `DeploymentClient` (in `deployment.dfy`): a client method. It registers a
  gateway, a switch below it and an access point below the switch, then derives
  from the contracts alone:
  - the exact `findAll` listing;
  - the tree's root and MAC set;
  - the refusals of a second root, a duplicate and an unknown uplink.
- `MacAddress` (`mac_address.dfy`): the validator. The regex is modelled by its
  own structure, as five separator-terminated pairs of hex digits and then one
  last pair (`MatchesGroups`). Two lemmas prove it equal to the
  character-by-character reading over 17 characters.

The tree invariant `TreeShaped` says four things:

- every downlink is a registered device, inserted after its uplink;
- every device except the first has an uplink inserted before it;
- no device has two uplinks;
- the map's own invariant holds: each key is listed once and the keys are the domain.

`SubtreeNode` recurses on that invariant. Its `decreases` measure is the number
of devices from the current one on in insertion order.

`NetworkDeploymentManager.java` is not thread-safe. It reads `storage`, then
reassigns it, without a lock. The model follows the code and is sequential.

## Model

| member | source | states |
|---|---|---|
| `Model.RankOrder` | src/main/java/com/ubiquiti/assignment/model/DeviceType.java:6-9 | The listing precedence is Gateway < Switch < AccessPoint. Distinct types have distinct ranks. |
| `LinkedMaps.LinkedMap.Empty` | src/main/java/com/ubiquiti/assignment/service/NetworkDeploymentManager.java:38 | The initial storage is empty and well formed. |
| `LinkedMaps.LinkedMap.Get` | src/main/java/com/ubiquiti/assignment/service/NetworkDeploymentManager.java:52 | A lookup is defined exactly when the key is stored, and then yields its value. |
| `LinkedMaps.LinkedMap.Put` | src/main/java/com/ubiquiti/assignment/service/NetworkDeploymentManager.java:67-70 | Put keeps the map well formed and sets the key's value. A present key keeps its position. A new key goes last. |
| `LinkedMaps.LinkedMap.Head` | src/main/java/com/ubiquiti/assignment/service/NetworkDeploymentManager.java:115 | The head of a non-empty storage is a stored key at insertion position 0. |
| `Deployment.NetworkingDeviceEntry.Empty` | src/main/java/com/ubiquiti/assignment/service/NetworkDeploymentManager.java:150-152 | A new entry has the given type and no downlinks. |
| `Deployment.NetworkingDeviceEntry.WithNewChild` | src/main/java/com/ubiquiti/assignment/service/NetworkDeploymentManager.java:154-157 | The type is kept. The new MAC is among the children. Nothing else is added. Adding a present child changes nothing (set semantics). |
| `Deployment.RootIsTree` | src/main/java/com/ubiquiti/assignment/service/NetworkDeploymentManager.java:56-70 | Registering the first device with no uplink into an empty storage yields a one-node tree. |
| `Deployment.AttachPreservesTree` | src/main/java/com/ubiquiti/assignment/service/NetworkDeploymentManager.java:60-70 | Registering a new MAC below a stored uplink keeps the single-tree invariant. The two steps are: update the uplink's entry, then put an empty entry for the new device. |
| `Deployment.HeadHasNoUplink` | src/main/java/com/ubiquiti/assignment/service/NetworkDeploymentManager.java:52-70 | Under the invariant, the first-registered device is nobody's downlink. |
| `Deployment.UniqueUplink` | src/main/java/com/ubiquiti/assignment/service/NetworkDeploymentManager.java:52-70 | Under the invariant, every device other than the first has an uplink registered before it, and only one uplink. |
| `Deployment.NetworkDeploymentManager.constructor` | src/main/java/com/ubiquiti/assignment/service/NetworkDeploymentManager.java:38 | A new manager has empty storage and satisfies the tree invariant. |
| `Deployment.NetworkDeploymentManager.RegisterDevice` | src/main/java/com/ubiquiti/assignment/service/NetworkDeploymentManager.java:48-71 | A MAC that is already stored fails with DuplicateDevice, whatever the uplink. Otherwise: no uplink on non-empty storage fails with RootAlreadyExists; an unstored uplink fails with UplinkNotFound, including the MAC itself. Success happens exactly when none of these apply. Every failure leaves `storage` unchanged. On success the MAC is appended to the insertion order with the given type and no children, and the uplink gains the MAC as a child, keeping its type and position. Every other entry is unchanged. The tree invariant is preserved. |
| `Deployment.NetworkDeploymentManager.Reset` | src/main/java/com/ubiquiti/assignment/service/NetworkDeploymentManager.java:136-138 | Afterwards storage is empty, as after construction, and the invariant holds. |
| `Deployment.Projection` | src/main/java/com/ubiquiti/assignment/service/NetworkDeploymentManager.java:78-82 | Mapping storage to descriptors gives one descriptor per stored device, in insertion order, carrying that device's stored type. A descriptor is in the result exactly when its MAC is stored with that type. No MAC appears twice. |
| `Deployment.FindAll` | src/main/java/com/ubiquiti/assignment/service/NetworkDeploymentManager.java:77-86 | The listing is a permutation of the stored (MAC, type) pairs. It is sorted by type rank and then by MAC address. It lists each stored device exactly once and nothing else. No MAC appears twice. An empty storage gives an empty list. |
| `Deployment.FindAllIsTheSortedListing` | src/main/java/com/ubiquiti/assignment/service/NetworkDeploymentManager.java:83-85 | Any sorted arrangement of the stored pairs equals the `findAll` result, so the listing depends only on the stored contents. |
| `Deployment.FindAllStrictlyOrdered` | src/main/java/com/ubiquiti/assignment/service/NetworkDeploymentManager.java:83-84 | Consecutive positions of the listing are strictly ordered: the comparator has no ties on stored devices. |
| `Deployment.Get` | src/main/java/com/ubiquiti/assignment/service/NetworkDeploymentManager.java:94-103 | `get(m)` succeeds exactly when `m` is stored, returning `m` with its stored type. Otherwise it fails with DeviceNotFound. |
| `Deployment.GetAgreesWithFindAll` | src/main/java/com/ubiquiti/assignment/service/NetworkDeploymentManager.java:77-103 | A descriptor is in the `findAll` listing exactly when `get` of its MAC returns it. |
| `Deployment.SubtreeNode` | src/main/java/com/ubiquiti/assignment/service/NetworkDeploymentManager.java:127-132 | The node carries the device's MAC and stored type. Its downlink nodes' MACs are exactly the stored children. The recursion terminates under the tree invariant. |
| `Deployment.GetDeviceSubtree` | src/main/java/com/ubiquiti/assignment/service/NetworkDeploymentManager.java:124-134 | The call succeeds exactly when the MAC is stored, with a node rooted at that MAC. Otherwise it fails with DeviceNotFound. |
| `Deployment.GetDeviceTree` | src/main/java/com/ubiquiti/assignment/service/NetworkDeploymentManager.java:110-116 | The call fails with EmptyDeployment exactly when storage is empty. Otherwise the result is rooted at the first-registered MAC. |
| `Deployment.SubtreeIsReachableSet` | src/main/java/com/ubiquiti/assignment/service/NetworkDeploymentManager.java:124-134 | The MACs in the subtree of `m` are exactly `m` and the devices reached from `m` through downlink links. |
| `Deployment.EveryNodeMatchesStorage` | src/main/java/com/ubiquiti/assignment/service/NetworkDeploymentManager.java:127-132 | Every node at any depth of a subtree is the subtree of its own MAC. It carries that device's stored type and exactly its stored children. |
| `Deployment.PathFollowsInsertionOrder` | src/main/java/com/ubiquiti/assignment/service/NetworkDeploymentManager.java:60-70 | Along any downlink path, insertion positions strictly increase. No device lies below itself (acyclic), and no path is longer than the number of devices. |
| `Deployment.DeviceTreeCoversDeployment` | src/main/java/com/ubiquiti/assignment/service/NetworkDeploymentManager.java:110-116 | On non-empty storage, the device tree's MACs are exactly the stored MACs. |
| `Deployment.EmptyDeploymentReads` | src/main/java/com/ubiquiti/assignment/service/NetworkDeploymentManager.java:136-137 | On the empty storage left by `reset`, `findAll` is empty. `get` and `getDeviceSubtree` fail with DeviceNotFound, and `getDeviceTree` fails with EmptyDeployment. |
| `Ordering.StrLeTotal` | src/main/java/com/ubiquiti/assignment/service/NetworkDeploymentManager.java:84 | Any two MAC strings compare one way or the other. |
| `Ordering.StrLeAntisymmetric` | src/main/java/com/ubiquiti/assignment/service/NetworkDeploymentManager.java:84 | Two strings that each compare at most the other are equal. |
| `Ordering.StrLeTransitive` | src/main/java/com/ubiquiti/assignment/service/NetworkDeploymentManager.java:84 | The MAC string comparison is transitive. |
| `Ordering.DescLeAntisymmetric` | src/main/java/com/ubiquiti/assignment/service/NetworkDeploymentManager.java:83-84 | Under the (type, MAC) comparator, descriptors that compare both ways are identical. |
| `Ordering.Sort` | src/main/java/com/ubiquiti/assignment/service/NetworkDeploymentManager.java:83-85 | The result is sorted by the (type rank, MAC) comparator and is a permutation of the input. |
| `Ordering.SortedUnique` | src/main/java/com/ubiquiti/assignment/service/NetworkDeploymentManager.java:83-85 | Two sorted permutations of the same multiset are equal. |
| `MacAddress.MatchesGroups` | src/main/java/com/ubiquiti/assignment/web/MacAddressValidator.java:11 | The pattern with `n` repeated groups: `n` pairs of hex digits each followed by a `:` or `-`, then one last pair, over the whole string. A match has exactly `3n + 2` characters. |
| `MacAddress.MatchesMacAddressPattern` | src/main/java/com/ubiquiti/assignment/web/MacAddressValidator.java:10-11 | `MAC_ADDRESS_PATTERN` is the group pattern with five repeated groups. A match has exactly 17 characters. |
| `MacAddress.Validate` | src/main/java/com/ubiquiti/assignment/web/MacAddressValidator.java:13-17 | Validation passes exactly when the address is present and matches the pattern. Otherwise it fails with InvalidMacAddress, and it has no other effect. |
| `MacAddress.NullRejected` | src/main/java/com/ubiquiti/assignment/web/MacAddressValidator.java:14-15 | An absent (`null`) address fails validation. |
| `MacAddress.GroupsByPosition` | src/main/java/com/ubiquiti/assignment/web/MacAddressValidator.java:11 | With `n` groups, a string matches exactly when its length is `3n + 2` and each position is right: a separator at every third place, a hex digit elsewhere. |
| `MacAddress.PatternByPosition` | src/main/java/com/ubiquiti/assignment/web/MacAddressValidator.java:11 | The pattern holds exactly when the string has 17 characters and each of those characters is right. |
| `MacAddress.AcceptedShape` | src/main/java/com/ubiquiti/assignment/web/MacAddressValidator.java:11 | An accepted address has length 17, a `:` or `-` at indices 2, 5, 8, 11 and 14, and a hex digit at every other index. |
| `MacAddress.ShapeAccepted` | src/main/java/com/ubiquiti/assignment/web/MacAddressValidator.java:11 | Every 17-character string with a separator at each third place and hex digits elsewhere is accepted, whatever mix of separators it uses. |
| `MacAddress.MixedSeparatorsAccepted` | src/main/java/com/ubiquiti/assignment/web/MacAddressValidator.java:11 | A concrete address that mixes `:` and `-` and mixes case is accepted. |
| `MacAddress.CaseInsensitive` | src/main/java/com/ubiquiti/assignment/web/MacAddressValidator.java:11 | Upper-casing a string never changes the verdict. |

## Left out

- `NetworkDeploymentController.java` is not part of this model: it is HTTP routing and a payload record with no logic. It does not call the validator (it carries a TODO for that), so here too the validator stands apart from the registry.
- `RestExceptionHandler.java` is not part of this model: it maps `IllegalArgumentException` to HTTP 400 and `NoSuchElementException` to HTTP 404. The comment on each `Failure` constructor records which of the two classes that failure is.
- `ObjectMapperConfig.java` and `build.gradle.kts` are JSON and build wiring with no behaviour.
- Concurrency: the source has no locking around `storage`, and the model is sequential.
- `Objects.requireNonNull` checks on the device type and the MAC address: Dafny values cannot be null. The nullable uplink is an `Option`, and `validate`'s nullable argument is one too.
- Exception message texts are not modelled. A failure is identified only by its `Failure` constructor.
- `NetworkingDeviceNode.empty` (a static factory the core never calls) is not modelled.
- Ordering.StrLe: it compares characters as Unicode scalar values, while Java's `String.compareTo` compares UTF-16 code units. The two orders agree on every string without characters outside the Basic Multilingual Plane, which includes every string the validator accepts.
- Ordering.Sort: it is an insertion sort, while vavr's `sorted` uses Java's stable merge sort. `SortedUnique` proves that a sorted permutation is unique, so the choice of algorithm does not change the result.
- The iteration order of vavr's hash sets (`children`, `downlinkDevices`) is not modelled. Both are Dafny sets, which are unordered.
