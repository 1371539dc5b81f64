/**
 The Wake-on-LAN magic packet: six bytes of 0xFF, then the six address
 bytes sixteen times, 6 * 17 = 102 bytes in all.
 */
module MagicPacket {

  newtype byte = x: int | 0 <= x < 256

  /**
   The number of octets in a hardware address: the `%x` conversions of the
   address format, and the length of each block of the packet.
   */
  const AddressLength: nat := 6

  /** How many times the address follows the synchronisation block. */
  const Repetitions: nat := 16

  /** The packet length `mac_build_packet` sets: 6 * 17. */
  const PacketLength: nat := AddressLength * (Repetitions + 1)

  const Broadcast: byte := 0xFF

  /**
   Storing an `int` octet into the `char` packet buffer keeps its low eight
   bits; on the wire that is the value modulo 256.
   */
  function ToByte(v: int): (b: byte)
    ensures (v - b as int) % 256 == 0
    ensures 0 <= v < 256 ==> b as int == v
  {
    (v % 256) as byte
  }

  /** The six address bytes, octet one first. */
  function AddressBytes(m: seq<nat>): (a: seq<byte>)
    requires |m| == AddressLength
    ensures |a| == AddressLength
  {
    seq(AddressLength, k requires 0 <= k < AddressLength => ToByte(m[k]))
  }

  /** The synchronisation block: six bytes of 0xFF. */
  function Sync(): (s: seq<byte>)
  {
    seq(AddressLength, _ => Broadcast)
  }

  /** `n` copies of `b`, one after the other. */
  function Repeat(b: seq<byte>, n: nat): seq<byte>
  {
    if n == 0 then [] else Repeat(b, n - 1) + b
  }

  /** The magic packet for the address with octets `m`. */
  function Packet(m: seq<nat>): (p: seq<byte>)
    requires |m| == AddressLength
    ensures |p| == PacketLength
  {
    RepeatLength(AddressBytes(m), Repetitions);
    Sync() + Repeat(AddressBytes(m), Repetitions)
  }

  /**
   The layout a network card looks for, stated byte by byte: 102 bytes, the
   first six 0xFF, every later byte the address byte at its offset in its block.
   */
  ghost predicate IsMagicPacketFor(p: seq<byte>, a: seq<byte>) {
    && |a| == AddressLength
    && |p| == PacketLength
    && (forall j :: 0 <= j < AddressLength ==> p[j] == Broadcast)
    && (forall j :: AddressLength <= j < PacketLength ==> p[j] == a[j % AddressLength])
  }

  lemma {:induction false} RepeatLength(b: seq<byte>, n: nat)
    ensures |Repeat(b, n)| == n * |b|
  {
    if n > 0 {
      RepeatLength(b, n - 1);
    }
  }

  /** Byte `k` of copy `i` is byte `k` of `b`. */
  lemma {:induction false} RepeatAt(b: seq<byte>, n: nat, i: nat, k: nat)
    requires i < n && k < |b|
    ensures i * |b| + k < |Repeat(b, n)|
    ensures Repeat(b, n)[i * |b| + k] == b[k]
  {
    RepeatLength(b, n - 1);
    if i < n - 1 {
      RepeatAt(b, n - 1, i, k);
    }
  }

  /** Block `i` of the packet (block 0 is the synchronisation block) at offset `k`. */
  lemma PacketAt(m: seq<nat>, i: nat, k: nat)
    requires |m| == AddressLength
    requires i <= Repetitions && k < AddressLength
    ensures |Packet(m)| == PacketLength
    ensures Packet(m)[AddressLength * i + k] == if i == 0 then Broadcast else ToByte(m[k])
  {
    RepeatLength(AddressBytes(m), Repetitions);
    assert |Packet(m)| == AddressLength + Repetitions * AddressLength;
    if i > 0 {
      RepeatAt(AddressBytes(m), Repetitions, i - 1, k);
      assert AddressLength * i + k == AddressLength + ((i - 1) * AddressLength + k);
    }
  }

  /**
   The packet has the magic-packet layout: exactly 102 bytes, 0xFF in
   bytes 0 to 5, and octet `k` (modulo 256) at byte 6 * i + k of every
   block i from 1 to 16. Every index below 102 is covered.
   */
  lemma PacketLayout(m: seq<nat>)
    requires |m| == AddressLength
    ensures IsMagicPacketFor(Packet(m), AddressBytes(m))
  {
    PacketAt(m, 0, 0);
    forall j | 0 <= j < PacketLength
      ensures Packet(m)[j] == if j < AddressLength then Broadcast else AddressBytes(m)[j % AddressLength]
    {
      PacketAt(m, j / AddressLength, j % AddressLength);
    }
  }

  /** The layout determines the packet: no other byte sequence has it. */
  lemma MagicPacketUnique(m: seq<nat>, p: seq<byte>)
    requires |m| == AddressLength
    ensures IsMagicPacketFor(p, AddressBytes(m)) <==> p == Packet(m)
  {
    PacketLayout(m);
    if IsMagicPacketFor(p, AddressBytes(m)) {
      assert forall j :: 0 <= j < PacketLength ==> p[j] == Packet(m)[j];
    }
  }

  /** Each block after the first is byte-identical to the address bytes. */
  lemma PacketBlock(m: seq<nat>, i: nat)
    requires |m| == AddressLength
    requires 1 <= i <= Repetitions
    ensures AddressLength * i + AddressLength <= |Packet(m)|
    ensures Packet(m)[AddressLength * i .. AddressLength * i + AddressLength] == AddressBytes(m)
  {
    PacketLayout(m);
    forall k | 0 <= k < AddressLength
      ensures Packet(m)[AddressLength * i + k] == AddressBytes(m)[k]
    {
      PacketAt(m, i, k);
    }
  }

  /** The address can be read back from the first block after the 0xFF bytes. */
  lemma PacketAddressRecovered(m: seq<nat>)
    requires |m| == AddressLength
    requires forall k :: 0 <= k < AddressLength ==> m[k] < 256
    ensures |Packet(m)| == PacketLength
    ensures forall k :: 0 <= k < AddressLength ==> Packet(m)[AddressLength + k] as int == m[k]
  {
    PacketLayout(m);
    PacketBlock(m, 1);
    assert Packet(m)[AddressLength .. 2 * AddressLength] == AddressBytes(m);
  }

  /** Different addresses (each octet below 256) give different packets. */
  lemma PacketInjective(m1: seq<nat>, m2: seq<nat>)
    requires |m1| == AddressLength && |m2| == AddressLength
    requires forall k :: 0 <= k < AddressLength ==> m1[k] < 256 && m2[k] < 256
    requires Packet(m1) == Packet(m2)
    ensures m1 == m2
  {
    PacketAddressRecovered(m1);
    PacketAddressRecovered(m2);
    assert forall k :: 0 <= k < AddressLength ==> m1[k] == Packet(m1)[AddressLength + k] as int;
  }

  /** Octets are taken modulo 256: octets that agree modulo 256 give the same packet. */
  lemma PacketModulo(m1: seq<nat>, m2: seq<nat>)
    requires |m1| == AddressLength && |m2| == AddressLength
    requires forall k :: 0 <= k < AddressLength ==> m1[k] % 256 == m2[k] % 256
    ensures Packet(m1) == Packet(m2)
  {
    assert AddressBytes(m1) == AddressBytes(m2);
  }
}
