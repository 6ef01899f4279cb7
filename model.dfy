/**
 The value types of a network deployment: device types with their fixed listing
 order, the two output views handed to callers, and the failures the operations
 report instead of throwing.
 */
module Model {

  datatype Option<T> = None | Some(value: T)

  /**
   One constructor per kind of failure. `DeviceNotFound` covers both lookups
   that can miss (`get` and `getDeviceSubtree`); `InvalidMacAddress` is the
   validator's.
   */
  datatype Failure =
    | DuplicateDevice     // IllegalArgumentException: the MAC address is already registered
    | RootAlreadyExists   // IllegalArgumentException: no uplink given, but a root exists
    | UplinkNotFound      // IllegalArgumentException: the named uplink is not registered
    | DeviceNotFound      // NoSuchElementException: the MAC address is not registered
    | EmptyDeployment     // NoSuchElementException: the deployment holds no device
    | InvalidMacAddress   // IllegalArgumentException: rejected by the MAC address validator

  /** The outcome of an operation that returns nothing (a Java `void` method). */
  datatype Outcome = Pass | Fail(failure: Failure)

  /** The outcome of an operation that returns a value. */
  datatype Result<T> = Ok(value: T) | Err(failure: Failure)

  datatype DeviceType = Gateway | Switch | AccessPoint

  /** The listing precedence of a device type: Gateway, then Switch, then AccessPoint. */
  function Rank(t: DeviceType): nat
  {
    match t
    case Gateway => 0
    case Switch => 1
    case AccessPoint => 2
  }

  /** The precedence is a strict total order: distinct types have distinct ranks. */
  lemma RankOrder(t: DeviceType, u: DeviceType)
    ensures Rank(Gateway) < Rank(Switch) < Rank(AccessPoint)
    ensures Rank(t) == Rank(u) ==> t == u
  {
  }

  /** The flat view of one registered device. */
  datatype NetworkingDeviceDescriptor = NetworkingDeviceDescriptor(macAddress: string, deviceType: DeviceType)

  /** A device together with the nodes of all devices connected below it. */
  datatype NetworkingDeviceNode =
    NetworkingDeviceNode(macAddress: string, deviceType: DeviceType, downlinkDevices: set<NetworkingDeviceNode>)

  /** Every MAC address that occurs in a node, its own and those of all its downlink nodes. */
  function Macs(n: NetworkingDeviceNode): (r: set<string>)
    ensures n.macAddress in r
  {
    {n.macAddress} + (set d, x | d in n.downlinkDevices && x in Macs(d) :: x)
  }

  /** Every node in a tree: the node itself and all nodes below it. */
  function Nodes(n: NetworkingDeviceNode): (r: set<NetworkingDeviceNode>)
    ensures n in r
  {
    {n} + (set d, x | d in n.downlinkDevices && x in Nodes(d) :: x)
  }
}
