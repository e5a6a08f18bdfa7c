/**
 * `WOLHelper.SendMagicPacket`: resolve the broadcast address, parse the MAC,
 * fill the 102-byte Wake-on-LAN buffer and hand it to a UDP socket. Every
 * failure on the way is rethrown as a MagicPacketException. Whether the socket
 * connects and sends is an input.
 */
module MagicPacket {
  import opened Wrappers
  import opened Bytes
  import opened MacAddress
  import opened NetworkInfo

  /** Length of the packet buffer. */
  const PacketLength: nat := 102

  /** Number of 0xFF bytes that open the packet. */
  const SyncLength: nat := 6

  /** Number of copies of the MAC that follow them. */
  const MacCopies: nat := 16

  /** `s` repeated `n` times. */
  function Repeat(s: seq<byte>, n: nat): seq<byte>
    decreases n
  {
    if n == 0 then [] else Repeat(s, n - 1) + s
  }

  /** The Wake-on-LAN payload: six 0xFF bytes, then the MAC sixteen times. */
  function Packet(mac: seq<byte>): seq<byte> {
    seq(SyncLength, _ => 0xFF) + Repeat(mac, MacCopies)
  }

  lemma {:induction false} RepeatLength(s: seq<byte>, n: nat)
    ensures |Repeat(s, n)| == n * |s|
    decreases n
  {
    if n > 0 {
      RepeatLength(s, n - 1);
    }
  }

  /** Copy k of the repetition holds the bytes of `s` in order. */
  lemma {:induction false} RepeatAt(s: seq<byte>, n: nat, k: nat, j: nat)
    requires k < n && j < |s|
    ensures k * |s| + j < |Repeat(s, n)| && Repeat(s, n)[k * |s| + j] == s[j]
    decreases n
  {
    RepeatLength(s, n);
    RepeatLength(s, n - 1);
    if k < n - 1 {
      RepeatAt(s, n - 1, k, j);
      assert k * |s| + j < (n - 1) * |s| by {
        assert (k + 1) * |s| <= (n - 1) * |s|;
      }
    } else {
      assert k * |s| == (n - 1) * |s|;
    }
  }

  /** Byte `6 + 6k + j` of the packet is byte j of the MAC, for every copy k. */
  lemma MagicPacketAt(mac: seq<byte>, k: nat, j: nat)
    requires |mac| == 6 && k < MacCopies && j < 6
    ensures 6 + 6 * k + j < |Packet(mac)| && Packet(mac)[6 + 6 * k + j] == mac[j]
  {
    RepeatAt(mac, MacCopies, k, j);
    assert k * |mac| == 6 * k;
  }

  /** The packet is 102 bytes: six of 0xFF, then at each later index the MAC byte that the index selects. */
  lemma MagicPacketLayout(mac: seq<byte>)
    requires |mac| == 6
    ensures |Packet(mac)| == PacketLength
    ensures forall i :: 0 <= i < SyncLength ==> Packet(mac)[i] == 0xFF
    ensures forall i :: SyncLength <= i < PacketLength ==> Packet(mac)[i] == mac[(i - 6) % 6]
  {
    RepeatLength(mac, MacCopies);
    forall i | SyncLength <= i < PacketLength ensures Packet(mac)[i] == mac[(i - 6) % 6] {
      MagicPacketAt(mac, (i - 6) / 6, (i - 6) % 6);
    }
  }

  /** `Buffer.BlockCopy(src, 0, dst, offset, src.Length)`. */
  method BlockCopy(src: seq<byte>, dst: array<byte>, offset: nat)
    requires offset + |src| <= dst.Length
    modifies dst
    ensures forall k :: 0 <= k < dst.Length ==>
      dst[k] == if offset <= k < offset + |src| then src[k - offset] else old(dst[k])
  {
    for j := 0 to |src|
      invariant forall k :: 0 <= k < dst.Length ==>
        dst[k] == if offset <= k < offset + j then src[k - offset] else old(dst[k])
    {
      dst[offset + j] := src[j];
    }
  }

  /**
   * The buffer of SendMagicPacket: six bytes of 0xFF, then the MAC copied at
   * stride 6 while the write position is inside the buffer. The ghost `copies`
   * counts the block copies.
   */
  method BuildPacket(macBytes: seq<byte>) returns (packet: array<byte>, ghost copies: nat)
    requires |macBytes| == 6
    ensures fresh(packet)
    ensures packet[..] == Packet(macBytes)
    ensures copies == MacCopies
  {
    packet := new byte[PacketLength];
    for i := 0 to 6
      invariant forall k :: 0 <= k < i ==> packet[k] == 0xFF
    {
      packet[i] := 0xFF;
    }
    var i := 6;
    copies := 0;
    while i < packet.Length
      invariant i == 6 + 6 * copies && i <= packet.Length
      invariant forall k :: 0 <= k < 6 ==> packet[k] == 0xFF
      invariant forall k :: 6 <= k < i ==> packet[k] == macBytes[(k - 6) % 6]
    {
      BlockCopy(macBytes, packet, i);
      forall k | i <= k < i + 6 ensures packet[k] == macBytes[(k - 6) % 6] {
        assert k - 6 == 6 * copies + (k - i);
      }
      i := i + |macBytes|;
      copies := copies + 1;
    }
    MagicPacketLayout(macBytes);
    assert packet[..] == Packet(macBytes);
  }

  /** One UDP datagram handed to the socket. */
  datatype Datagram = Datagram(destination: Address, port: int, payload: seq<byte>)

  /** The failure inside SendMagicPacket that the MagicPacketException wraps. */
  datatype SendCause =
    | BroadcastUnresolved(error: BroadcastError)  // from GetBroadcastAddress
    | MalformedMac                                // ArgumentException from ParseMacAddress
    | PortOutOfRange                              // UdpClient.Connect accepts ports 0..65535 only
    | TransportFailure                            // the socket could not be opened, connected or written

  /** `MagicPacketException("Failed to send magic packet.", inner)`. */
  datatype MagicPacketException = MagicPacketException(cause: SendCause)

  /** Ports UdpClient.Connect accepts. */
  predicate ValidEndpointPort(port: int) {
    0 <= port <= 65535
  }

  /** What SendMagicPacket sends, or the exception it throws, checking in the order of the source. */
  function SendResult(macAddress: string, broadcast: Option<Address>, port: int, network: Network, transportOk: bool)
    : Result<Datagram, MagicPacketException>
  {
    var target := if broadcast.Some? then Ok(broadcast.value) else BroadcastAddress(None, network);
    if target.Err? then Err(MagicPacketException(BroadcastUnresolved(target.error)))
    else if !ValidMac(macAddress) then Err(MagicPacketException(MalformedMac))
    else if !ValidEndpointPort(port) then Err(MagicPacketException(PortOutOfRange))
    else if !transportOk then Err(MagicPacketException(TransportFailure))
    else Ok(Datagram(target.value, port, Packet(MacBytes(macAddress))))
  }

  /**
   * A datagram is sent exactly when the address resolves, the MAC is valid, the
   * port is one a socket accepts and the transport works; it then goes to the
   * given or derived broadcast address and port, and is the 102-byte magic
   * packet of the parsed MAC.
   */
  lemma SendResultSpec(macAddress: string, broadcast: Option<Address>, port: int, network: Network, transportOk: bool)
    ensures SendResult(macAddress, broadcast, port, network, transportOk).Ok? <==>
      (broadcast.Some? || BroadcastAddress(None, network).Ok?)
      && ValidMac(macAddress) && ValidEndpointPort(port) && transportOk
    ensures SendResult(macAddress, broadcast, port, network, transportOk).Ok? ==>
      var d := SendResult(macAddress, broadcast, port, network, transportOk).value;
      && d.destination == (if broadcast.Some? then broadcast.value else BroadcastAddress(None, network).value)
      && d.port == port
      && |d.payload| == PacketLength
      && (forall i :: 0 <= i < SyncLength ==> d.payload[i] == 0xFF)
      && (forall i :: SyncLength <= i < PacketLength ==> d.payload[i] == MacBytes(macAddress)[(i - 6) % 6])
  {
    if SendResult(macAddress, broadcast, port, network, transportOk).Ok? {
      MagicPacketLayout(MacBytes(macAddress));
    }
  }

  /**
   * SendMagicPacket: `broadcast ??= GetBroadcastAddress()`, parse the MAC,
   * connect, build the buffer and send it; any exception becomes a
   * MagicPacketException.
   */
  method SendMagicPacket(macAddress: string, broadcast: Option<Address>, port: int, network: Network, transportOk: bool)
    returns (r: Result<Datagram, MagicPacketException>)
    ensures r == SendResult(macAddress, broadcast, port, network, transportOk)
  {
    var target: Address;
    if broadcast.None? {
      var b := GetBroadcastAddress(None, network);
      if b.Err? {
        return Err(MagicPacketException(BroadcastUnresolved(b.error)));
      }
      target := b.value;
    } else {
      target := broadcast.value;
    }
    var macBytes := ParseMacAddress(macAddress);
    if macBytes.Err? {
      return Err(MagicPacketException(MalformedMac));
    }
    if !ValidEndpointPort(port) || !transportOk {
      return Err(MagicPacketException(if !ValidEndpointPort(port) then PortOutOfRange else TransportFailure));
    }
    var packet, _ := BuildPacket(macBytes.value);
    return Ok(Datagram(target, port, packet[..]));
  }
}
