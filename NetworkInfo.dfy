/**
 * The local-network queries of WOLHelper: the host's IPv4 addresses, the
 * subnet mask of an address, and the directed broadcast address derived from
 * the two. The DNS entry of the host and its network interfaces are inputs.
 */
module NetworkInfo {
  import opened Wrappers
  import opened Bytes

  /**
   * An IPAddress as `GetAddressBytes` returns it: four bytes for IPv4
   * (AddressFamily.InterNetwork), sixteen for IPv6. Equality of values stands
   * for `IPAddress.Equals`.
   */
  type Address = a: seq<byte> | |a| == 4 || |a| == 16 witness [0, 0, 0, 0]

  /** An IPv4 address: what `UnicastIPAddressInformation.IPv4Mask` always is. */
  type IPv4Address = a: Address | |a| == 4 witness [0, 0, 0, 0]

  predicate IsIPv4(a: Address) {
    |a| == 4
  }

  /** One unicast address of a network interface, with its IPv4 mask. */
  datatype UnicastAddress = UnicastAddress(address: Address, ipv4Mask: IPv4Address)

  /**
   * What the host reports: the address list of the DNS entry for its own name
   * (in the order DNS gives it), and for each network interface, in the order
   * the operating system lists them, its unicast addresses.
   */
  datatype Network = Network(hostAddresses: seq<Address>, interfaces: seq<seq<UnicastAddress>>)

  // ---------------------------------------------------------------------------
  // GetLocalIpAddresses
  // ---------------------------------------------------------------------------

  /** The IPv4 addresses of a list, in their order. */
  function IPv4Only(addrs: seq<Address>): seq<Address>
    decreases |addrs|
  {
    if addrs == [] then []
    else
      var last := addrs[|addrs| - 1];
      IPv4Only(addrs[..|addrs| - 1]) + (if IsIPv4(last) then [last] else [])
  }

  /** An address is kept exactly when it is in the list and is IPv4. */
  lemma {:induction false} IPv4OnlyMembers(addrs: seq<Address>)
    ensures forall a :: a in IPv4Only(addrs) <==> a in addrs && IsIPv4(a)
    decreases |addrs|
  {
    if addrs != [] {
      var init := addrs[..|addrs| - 1];
      IPv4OnlyMembers(init);
      assert addrs == init + [addrs[|addrs| - 1]];
    }
  }

  /** Filtering distributes over concatenation, so the kept addresses stay in their order. */
  lemma {:induction false} IPv4OnlyConcat(s: seq<Address>, t: seq<Address>)
    ensures IPv4Only(s + t) == IPv4Only(s) + IPv4Only(t)
    decreases |t|
  {
    if t == [] {
      assert s + t == s;
    } else {
      var init := t[..|t| - 1];
      IPv4OnlyConcat(s, init);
      assert (s + t)[..|s + t| - 1] == s + init;
    }
  }

  /** A list of IPv4 addresses only is kept whole. */
  lemma {:induction false} IPv4OnlyKeepsIPv4List(addrs: seq<Address>)
    requires forall k :: 0 <= k < |addrs| ==> IsIPv4(addrs[k])
    ensures IPv4Only(addrs) == addrs
    decreases |addrs|
  {
    if addrs != [] {
      IPv4OnlyKeepsIPv4List(addrs[..|addrs| - 1]);
      assert addrs == addrs[..|addrs| - 1] + [addrs[|addrs| - 1]];
    }
  }

  /** GetLocalIpAddresses: appends each InterNetwork address of the host entry to a list. */
  method GetLocalIpAddresses(hostAddresses: seq<Address>) returns (addresses: seq<Address>)
    ensures addresses == IPv4Only(hostAddresses)
  {
    addresses := [];
    for i := 0 to |hostAddresses|
      invariant addresses == IPv4Only(hostAddresses[..i])
    {
      var ip := hostAddresses[i];
      assert hostAddresses[..i + 1][..i] == hostAddresses[..i];
      if IsIPv4(ip) {
        addresses := addresses + [ip];
      }
    }
    assert hostAddresses[..|hostAddresses|] == hostAddresses;
  }

  // ---------------------------------------------------------------------------
  // GetSubnetMask
  // ---------------------------------------------------------------------------

  /** The mask of the first entry that carries `address`. */
  function MaskAmong(entries: seq<UnicastAddress>, address: Address): Option<IPv4Address>
    decreases |entries|
  {
    if entries == [] then None
    else if entries[0].address == address then Some(entries[0].ipv4Mask)
    else MaskAmong(entries[1..], address)
  }

  /** The mask of the first interface, in order, among whose entries MaskAmong finds one. */
  function SubnetMask(interfaces: seq<seq<UnicastAddress>>, address: Address): Option<IPv4Address>
    decreases |interfaces|
  {
    if interfaces == [] then None
    else
      match MaskAmong(interfaces[0], address)
      case Some(m) => Some(m)
      case None => SubnetMask(interfaces[1..], address)
  }

  /** All unicast entries, interface after interface. */
  function Flatten(interfaces: seq<seq<UnicastAddress>>): seq<UnicastAddress>
    decreases |interfaces|
  {
    if interfaces == [] then [] else interfaces[0] + Flatten(interfaces[1..])
  }

  /** MaskAmong returns the mask of the first matching entry, and nothing iff no entry matches. */
  lemma {:induction false} MaskAmongIsFirstMatch(entries: seq<UnicastAddress>, address: Address)
    ensures MaskAmong(entries, address).None? <==>
      forall k :: 0 <= k < |entries| ==> entries[k].address != address
    ensures MaskAmong(entries, address).Some? ==>
      exists k :: 0 <= k < |entries| && entries[k] == UnicastAddress(address, MaskAmong(entries, address).value)
        && forall j :: 0 <= j < k ==> entries[j].address != address
    decreases |entries|
  {
    if entries != [] && entries[0].address != address {
      MaskAmongIsFirstMatch(entries[1..], address);
      if MaskAmong(entries[1..], address).Some? {
        var k :| 0 <= k < |entries[1..]| && entries[1..][k] == UnicastAddress(address, MaskAmong(entries[1..], address).value)
          && forall j :: 0 <= j < k ==> entries[1..][j].address != address;
        assert entries[k + 1] == entries[1..][k];
        assert forall j :: 0 <= j < k + 1 ==> entries[j].address != address by {
          forall j | 0 <= j < k + 1 ensures entries[j].address != address {
            if j > 0 { assert entries[j] == entries[1..][j - 1]; }
          }
        }
      } else {
        forall k | 0 <= k < |entries| ensures entries[k].address != address {
          if k > 0 { assert entries[k] == entries[1..][k - 1]; }
        }
      }
    } else if entries != [] {
      assert entries[0] == UnicastAddress(address, MaskAmong(entries, address).value);
    }
  }

  /** Searching a concatenation searches the first part, then the second. */
  lemma {:induction false} MaskAmongConcat(e1: seq<UnicastAddress>, e2: seq<UnicastAddress>, address: Address)
    ensures MaskAmong(e1 + e2, address) ==
      if MaskAmong(e1, address).Some? then MaskAmong(e1, address) else MaskAmong(e2, address)
    decreases |e1|
  {
    if e1 == [] {
      assert e1 + e2 == e2;
    } else {
      assert (e1 + e2)[1..] == e1[1..] + e2;
      MaskAmongConcat(e1[1..], e2, address);
    }
  }

  /** SubnetMask searches the entries in interface-then-address order. */
  lemma {:induction false} SubnetMaskInInterfaceOrder(interfaces: seq<seq<UnicastAddress>>, address: Address)
    ensures SubnetMask(interfaces, address) == MaskAmong(Flatten(interfaces), address)
    decreases |interfaces|
  {
    if interfaces != [] {
      SubnetMaskInInterfaceOrder(interfaces[1..], address);
      MaskAmongConcat(interfaces[0], Flatten(interfaces[1..]), address);
    }
  }

  /**
   * The mask found is that of the first entry, in interface-then-address
   * order, whose address equals the query; none is found iff no entry has it.
   */
  lemma SubnetMaskIsFirstMatch(interfaces: seq<seq<UnicastAddress>>, address: Address)
    ensures SubnetMask(interfaces, address).None? <==>
      forall k :: 0 <= k < |Flatten(interfaces)| ==> Flatten(interfaces)[k].address != address
    ensures SubnetMask(interfaces, address).Some? ==>
      exists k :: 0 <= k < |Flatten(interfaces)|
        && Flatten(interfaces)[k] == UnicastAddress(address, SubnetMask(interfaces, address).value)
        && forall j :: 0 <= j < k ==> Flatten(interfaces)[j].address != address
  {
    SubnetMaskInInterfaceOrder(interfaces, address);
    MaskAmongIsFirstMatch(Flatten(interfaces), address);
  }

  /** GetSubnetMask: two nested scans that return at the first entry carrying the address. */
  method GetSubnetMask(interfaces: seq<seq<UnicastAddress>>, address: Address) returns (mask: Option<IPv4Address>)
    ensures mask == SubnetMask(interfaces, address)
  {
    for i := 0 to |interfaces|
      invariant SubnetMask(interfaces, address) == SubnetMask(interfaces[i..], address)
    {
      var unicastAddresses := interfaces[i];
      assert interfaces[i..][0] == unicastAddresses && interfaces[i..][1..] == interfaces[i + 1..];
      for j := 0 to |unicastAddresses|
        invariant MaskAmong(unicastAddresses, address) == MaskAmong(unicastAddresses[j..], address)
      {
        if unicastAddresses[j].address == address {
          return Some(unicastAddresses[j].ipv4Mask);
        }
        assert unicastAddresses[j..][1..] == unicastAddresses[j + 1..];
      }
    }
    return None;
  }

  // ---------------------------------------------------------------------------
  // GetBroadcastAddress
  // ---------------------------------------------------------------------------

  /** The failures of GetBroadcastAddress. */
  datatype BroadcastError =
    | NoLocalAddress                   // InvalidOperationException "No local IP addresses found."
    | SubnetMaskNotFound(ip: Address)  // ArgumentException "Can't find subnet mask for IP address"
    | MaskShorterThanAddress           // IndexOutOfRangeException: an IPv6 address with its 4-byte mask

  /** Octet by octet `ip | (mask ^ 255)`. */
  function DirectedBroadcast(ip: Address, mask: seq<byte>): (b: Address)
    requires |mask| >= |ip|
  {
    seq(|ip|, i requires 0 <= i < |ip| => ip[i] | (mask[i] ^ 0xFF))
  }

  /** An octet that keeps the network bits of `ip` under `mask` and has every host bit set. */
  predicate TopOfSubnetOctet(x: byte, ip: byte, mask: byte) {
    x & mask == ip & mask && x | mask == 0xFF
  }

  /** One octet: `ip | (mask ^ 255)` is the only octet that keeps the network bits and sets every host bit. */
  lemma BroadcastOctet(x: byte, ip: byte, mask: byte)
    ensures x == ip | (mask ^ 0xFF) <==> TopOfSubnetOctet(x, ip, mask)
  {
  }

  /**
   * The directed broadcast address is the address of the same length that lies
   * in the subnet of `ip` (same network bits) and has every host bit set; no
   * other address has both properties.
   */
  lemma DirectedBroadcastIsTopOfSubnet(ip: Address, mask: seq<byte>, b: seq<byte>)
    requires |mask| >= |ip|
    ensures b == DirectedBroadcast(ip, mask) <==>
      |b| == |ip| && forall i :: 0 <= i < |ip| ==> TopOfSubnetOctet(b[i], ip[i], mask[i])
  {
    var d := DirectedBroadcast(ip, mask);
    forall i | 0 <= i < |ip| ensures TopOfSubnetOctet(d[i], ip[i], mask[i]) {
      BroadcastOctet(d[i], ip[i], mask[i]);
    }
    if |b| == |ip| && forall i :: 0 <= i < |ip| ==> TopOfSubnetOctet(b[i], ip[i], mask[i]) {
      forall i | 0 <= i < |ip| ensures b[i] == d[i] {
        BroadcastOctet(b[i], ip[i], mask[i]);
      }
    }
  }

  /** The two worked cases: a /24 and a /8 network. */
  lemma DirectedBroadcastExamples()
    ensures DirectedBroadcast([192, 168, 1, 10], [255, 255, 255, 0]) == [192, 168, 1, 255]
    ensures DirectedBroadcast([10, 0, 0, 5], [255, 0, 0, 0]) == [10, 255, 255, 255]
  {
  }

  /**
   * GetBroadcastAddress: the address defaults to the first local IPv4 address,
   * its mask must be found, and the broadcast address is derived octet by octet.
   */
  function BroadcastAddress(ip: Option<Address>, network: Network): Result<Address, BroadcastError> {
    var local := IPv4Only(network.hostAddresses);
    if ip.None? && local == [] then Err(NoLocalAddress)
    else
      var chosen := if ip.Some? then ip.value else local[0];
      match SubnetMask(network.interfaces, chosen)
      case None => Err(SubnetMaskNotFound(chosen))
      case Some(mask) =>
        if |mask| < |chosen| then Err(MaskShorterThanAddress) else Ok(DirectedBroadcast(chosen, mask))
  }

  /**
   * Without an address, the host's first IPv4 address is used, and an empty
   * list is an error; the derivation never meets a mask shorter than the
   * address, so it fails only for want of an address or a mask.
   */
  lemma DefaultBroadcastAddress(network: Network)
    ensures IPv4Only(network.hostAddresses) == [] <==> BroadcastAddress(None, network) == Err(NoLocalAddress)
    ensures IPv4Only(network.hostAddresses) != [] ==>
      var first := IPv4Only(network.hostAddresses)[0];
      IsIPv4(first) && BroadcastAddress(None, network) ==
        match SubnetMask(network.interfaces, first)
        case None => Err(SubnetMaskNotFound(first))
        case Some(mask) => Ok(DirectedBroadcast(first, mask))
  {
    if IPv4Only(network.hostAddresses) != [] {
      var first := IPv4Only(network.hostAddresses)[0];
      IPv4OnlyMembers(network.hostAddresses);
      assert first in IPv4Only(network.hostAddresses);
    }
  }

  /** A 192.168.1.10/24 host that also reports an IPv6 address first broadcasts to 192.168.1.255. */
  lemma BroadcastAddressExample()
    ensures
      var v6: Address := [0xFE, 0x80, 0, 0, 0, 0, 0, 0, 0, 0, 0, 0, 0, 0, 0, 1];
      var v4: Address := [192, 168, 1, 10];
      var network := Network([v6, v4], [[UnicastAddress(v6, [0, 0, 0, 0]), UnicastAddress(v4, [255, 255, 255, 0])]]);
      BroadcastAddress(None, network) == Ok([192, 168, 1, 255])
  {
    var v6: Address := [0xFE, 0x80, 0, 0, 0, 0, 0, 0, 0, 0, 0, 0, 0, 0, 0, 1];
    var v4: Address := [192, 168, 1, 10];
    var entries := [UnicastAddress(v6, [0, 0, 0, 0]), UnicastAddress(v4, [255, 255, 255, 0])];
    assert IPv4Only([v6]) == [] by {
      assert [v6][..0] == [];
    }
    assert IPv4Only([v6, v4]) == [v4] by {
      assert [v6, v4][..1] == [v6];
    }
    assert MaskAmong(entries, v4) == Some([255, 255, 255, 0]) by {
      assert v6 != v4 by { assert |v6| != |v4|; }
      assert entries[1..][0] == entries[1];
    }
    assert SubnetMask([entries], v4) == Some([255, 255, 255, 0]);
    DirectedBroadcastExamples();
  }

  /** GetBroadcastAddress: each octet of the result array is `ip | (mask ^ 255)`. */
  method GetBroadcastAddress(ip: Option<Address>, network: Network) returns (r: Result<Address, BroadcastError>)
    ensures r == BroadcastAddress(ip, network)
  {
    var chosen: Address;
    if ip.None? {
      var ipAddresses := GetLocalIpAddresses(network.hostAddresses);
      if |ipAddresses| == 0 {
        return Err(NoLocalAddress);
      }
      chosen := ipAddresses[0];
    } else {
      chosen := ip.value;
    }
    var mask := GetSubnetMask(network.interfaces, chosen);
    if mask.None? {
      return Err(SubnetMaskNotFound(chosen));
    }
    var ipAddressBytes := chosen;
    var subnetMaskBytes := mask.value;
    var broadcastAddress := new byte[|ipAddressBytes|];
    for i := 0 to broadcastAddress.Length
      invariant i <= |subnetMaskBytes|
      invariant forall k :: 0 <= k < i ==> broadcastAddress[k] == ipAddressBytes[k] | (subnetMaskBytes[k] ^ 0xFF)
    {
      if i >= |subnetMaskBytes| {
        return Err(MaskShorterThanAddress);
      }
      broadcastAddress[i] := ipAddressBytes[i] | (subnetMaskBytes[i] ^ 0xFF);
    }
    assert broadcastAddress[..] == DirectedBroadcast(ipAddressBytes, subnetMaskBytes);
    return Ok(broadcastAddress[..]);
  }
}
