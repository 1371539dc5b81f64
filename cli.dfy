/**
 The command line: `wol <mac_address>`. `args` is the argument vector after
 the program name, so the C `argc` is `|args| + 1`. The outcome of the
 broadcast (`mac_wake` returning 1 or not) is the parameter `sendOk`.
 */
module Cli {
  import opened Wrappers
  import opened HexScan
  import opened MagicPacket
  import opened Mac

  /** Exit status with no argument (the usage text) and after a successful send. */
  const ExitOk: int := 0
  /** Exit status when the argument is not a hardware address. */
  const ExitBadAddress: int := 2
  /** Exit status when the broadcast fails. */
  const ExitSendFailed: int := 3

  /** The exit status `main` returns. */
  function ExitStatus(args: seq<string>, sendOk: bool): (code: int)
    ensures code in {ExitOk, ExitBadAddress, ExitSendFailed}
    ensures |args| == 0 ==> code == ExitOk
  {
    if |args| == 0 then ExitOk
    else if ParseMac(args[0]).None? then ExitBadAddress
    else if !sendOk then ExitSendFailed
    else ExitOk
  }

  /** The datagram payload `main` hands to `mac_wake`, if it gets that far. */
  function Transmitted(args: seq<string>): (sent: Option<seq<byte>>)
    ensures sent.Some? ==> |args| > 0 && |sent.value| == PacketLength
  {
    if |args| == 0 then None
    else match ParseMac(args[0])
      case None => None
      case Some(m) => Some(Packet(m))
  }

  /**
   `main`: with no argument nothing is parsed and nothing sent; otherwise
   the first argument is parsed into a fresh record and, when that
   succeeds, its packet (of `packet_length` bytes) is sent.
   */
  method Run(args: seq<string>, sendOk: bool) returns (code: int, sent: Option<seq<byte>>)
    ensures code == ExitStatus(args, sendOk)
    ensures sent == Transmitted(args)
  {
    if |args| == 0 {
      return ExitOk, None;
    }
    var mac := new MacAddress();
    var ok := mac.FromString(args[0]);
    if !ok {
      return ExitBadAddress, None;
    }
    sent := Some(mac.packet[..mac.packetLength]);
    assert mac.packet[..mac.packetLength] == mac.packet[..];
    if !sendOk {
      return ExitSendFailed, sent;
    }
    code := ExitOk;
  }

  /**
   The four exits of `main`: no argument gives 0; an argument that does not
   parse gives 2; a parsed address whose send fails gives 3; a send that
   succeeds gives 0. No other status is returned.
   */
  lemma ExitStatusCases(args: seq<string>, sendOk: bool)
    ensures var code := ExitStatus(args, sendOk);
      && (code == ExitOk <==> |args| == 0 || (ParseMac(args[0]).Some? && sendOk))
      && (code == ExitBadAddress <==> |args| > 0 && ParseMac(args[0]).None?)
      && (code == ExitSendFailed <==> |args| > 0 && ParseMac(args[0]).Some? && !sendOk)
      && code in {ExitOk, ExitBadAddress, ExitSendFailed}
  {
  }

  /**
   A packet is sent exactly when there is an argument and it parses, and it
   is then the magic packet of the parsed octets: 102 bytes in the layout.
   */
  lemma TransmittedIsMagicPacket(args: seq<string>)
    ensures Transmitted(args).Some? <==> |args| > 0 && ParseMac(args[0]).Some?
    ensures Transmitted(args).Some? ==>
      IsMagicPacketFor(Transmitted(args).value, AddressBytes(ParseMac(args[0]).value))
  {
    if Transmitted(args).Some? {
      PacketLayout(ParseMac(args[0]).value);
    }
  }

  /** Only the first argument is looked at. */
  lemma ExtraArgumentsIgnored(args: seq<string>, sendOk: bool)
    requires |args| >= 1
    ensures ExitStatus(args, sendOk) == ExitStatus(args[..1], sendOk)
    ensures Transmitted(args) == Transmitted(args[..1])
  {
  }

  /** `wol 01:23:45:67:89:ab`: sent, and the status follows the send. */
  lemma ExampleAddressRun(sendOk: bool)
    ensures ExitStatus(["01:23:45:67:89:ab"], sendOk) == if sendOk then ExitOk else ExitSendFailed
    ensures Transmitted(["01:23:45:67:89:ab"]) == Some(Packet([0x01, 0x23, 0x45, 0x67, 0x89, 0xab]))
  {
    ExampleAddressParses();
  }

  /** `wol not-a-mac` exits with 2 and sends nothing. */
  lemma NotAnAddressRun(sendOk: bool)
    ensures ExitStatus(["not-a-mac"], sendOk) == ExitBadAddress
    ensures Transmitted(["not-a-mac"]) == None
  {
    NotAnAddressRejected();
  }

  /** `wol 01-23-45-67-89-ab` exits with 2 and sends nothing. */
  lemma DashFormRun(sendOk: bool)
    ensures ExitStatus(["01-23-45-67-89-ab"], sendOk) == ExitBadAddress
    ensures Transmitted(["01-23-45-67-89-ab"]) == None
  {
    DashFormRejected();
  }
}
