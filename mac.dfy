/**
 The `mac_t` record of the program: six octet fields and a packet buffer
 with its length, filled in place by `mac_from_str` and `mac_build_packet`.
 */
module Mac {
  import opened HexScan
  import opened MagicPacket

  class MacAddress {
    /** `octet_one` to `octet_six`, as `sscanf` stores them. */
    var octets: array<nat>
    /** The packet buffer and `packet_length`. */
    var packet: array<byte>
    var packetLength: nat

    ghost predicate Valid()
      reads this
    {
      octets.Length == AddressLength && packetLength == packet.Length
    }

    /** The six octets, octet one first. */
    ghost function Octets(): (m: seq<nat>)
      reads this, octets
      requires Valid()
      ensures |m| == AddressLength
    {
      octets[..]
    }

    /** A fresh record (`mac_alloc`); no packet is built yet. */
    constructor ()
      ensures Valid() && fresh(octets) && fresh(packet)
      ensures packet.Length == 0 && packetLength == 0
    {
      octets := new nat[AddressLength];
      packet := new byte[0];
      packetLength := 0;
    }

    /**
     `mac_build_packet`: sets the length to 6 * 17, allocates the buffer,
     writes 0xFF into bytes 0 to 5, then octet one to octet six (each
     modulo 256) into bytes 6 * i to 6 * i + 5 for i from 1 to 16.
     */
    method BuildPacket()
      requires Valid()
      modifies this
      ensures Valid() && octets == old(octets)
      ensures fresh(packet)
      ensures packetLength == PacketLength
      ensures packet[..] == Packet(Octets())
    {
      packetLength := 6 * 17;
      var p := new byte[packetLength];
      ghost var m := octets[..];

      for i := 0 to 6
        modifies p
        invariant forall j :: 0 <= j < i ==> p[j] == Broadcast
      {
        p[i] := 255;
      }

      for i := 1 to 17
        modifies p
        invariant forall j :: 0 <= j < 6 * i ==> p[j] == if j < 6 then Broadcast else ToByte(m[j % 6])
      {
        p[i * 6] := ToByte(octets[0]);
        p[i * 6 + 1] := ToByte(octets[1]);
        p[i * 6 + 2] := ToByte(octets[2]);
        p[i * 6 + 3] := ToByte(octets[3]);
        p[i * 6 + 4] := ToByte(octets[4]);
        p[i * 6 + 5] := ToByte(octets[5]);
        OffsetInBlock(i);
      }

      packet := p;
      FilledIsPacket(packet[..], m);
    }

    /**
     `mac_from_str`: the scan stores each field it converts, in order,
     stopping at the first mismatch; when all six were converted the
     packet is built, and otherwise the call fails and builds nothing.
     */
    method FromString(s: string) returns (ok: bool)
      requires Valid()
      modifies this, octets
      ensures Valid() && octets == old(octets)
      ensures ok <==> ParseMac(s).Some?
      ensures octets[..|Scan(s)|] == Scan(s)
      ensures octets[|Scan(s)|..] == old(octets[|Scan(s)|..])
      ensures ok ==> Octets() == ParseMac(s).value
      ensures ok ==> fresh(packet) && packetLength == PacketLength && packet[..] == Packet(Octets())
      ensures !ok ==> packet == old(packet) && packetLength == old(packetLength)
    {
      var vs := Scan(s);
      forall k | 0 <= k < |vs| {
        octets[k] := vs[k];
      }
      if |vs| != AddressLength {
        return false;
      }
      assert octets[..] == octets[..|vs|];
      BuildPacket();
      ok := true;
    }
  }

  /**
   Building is deterministic: a record holding octets `m` built twice
   yields byte-identical packets, both the magic packet of `m`.
   */
  method BuildTwice(m: seq<nat>) returns (first: seq<byte>, second: seq<byte>)
    requires |m| == AddressLength
    ensures first == second == Packet(m)
  {
    var mac := new MacAddress();
    forall k | 0 <= k < AddressLength {
      mac.octets[k] := m[k];
    }
    assert mac.Octets() == m;
    mac.BuildPacket();
    first := mac.packet[..];
    mac.BuildPacket();
    second := mac.packet[..];
  }

  /** The indices of block `i` are `6 * i` plus their offset in the block. */
  lemma OffsetInBlock(i: nat)
    ensures forall j :: 6 * i <= j < 6 * (i + 1) ==> j % 6 == j - 6 * i
  {
  }

  /** A buffer filled byte by byte as `mac_build_packet` fills it holds the magic packet. */
  lemma FilledIsPacket(p: seq<byte>, m: seq<nat>)
    requires |m| == AddressLength && |p| == PacketLength
    requires forall j :: 0 <= j < AddressLength ==> p[j] == Broadcast
    requires forall j :: AddressLength <= j < PacketLength ==> p[j] == ToByte(m[j % AddressLength])
    ensures p == Packet(m)
  {
    assert IsMagicPacketFor(p, AddressBytes(m));
    MagicPacketUnique(m, p);
  }
}
