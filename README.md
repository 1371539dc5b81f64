# wol: a verified model of the Wake-on-LAN command

`wol <mac_address>` parses a textual hardware address into the six octet
fields of its `mac_t` record, builds the 102-byte Wake-on-LAN magic packet
in a buffer on that record, and broadcasts it. The model has five modules:

- `Wrappers`: the `Option` result type.
- `HexScan`: the scan `mac_from_str` runs with the format
  `"%x:%x:%x:%x:%x:%x"`. One conversion (`Convert`) reads the longest run of
  hex digits at the front of the text. After each of the first five
  conversions the scan goes on only past a literal `:`. The scan stops at the
  first mismatch, and its result (`Scan`) is the values of the conversions
  that succeeded, in order. `ParseMac` succeeds exactly when all six
  conversions do. Around the scan are the colon form of an address
  (`FormatMac`) and the lemmas that tie the two together.
- `MagicPacket`: the byte type and the packet as a value. `Packet(m)` is six
  bytes of 0xFF followed by the six address bytes sixteen times, each octet
  reduced modulo 256. `IsMagicPacketFor` states the same layout byte by byte.
- `Mac`: the `mac_t` record as the class `MacAddress`. It has an array of the
  six octets, the packet buffer and `packetLength`. `BuildPacket` is
  `mac_build_packet` with its two loops, writing into a fresh array.
  `FromString` is `mac_from_str`. Like `sscanf`, it stores every octet it
  converted, even when it then fails.
- `Cli`: `main`. Its argument `args` is the argument vector after the
  program name, so the C `argc` is `|args| + 1`. Whether `mac_wake` returned 1
  is the parameter `sendOk`. `Run` returns the exit status and the payload
  handed to `mac_wake`.

The doc comment of `mac_from_str` says the address may also be separated
with `-`. The code's format only matches `:`, so the model follows the code:
`01-23-45-67-89-ab` is rejected with exit status 2 (`DashFormRejected`,
`DashFormRun`).

A record that `mac_alloc` returns has indeterminate fields. The model's
constructor starts with arbitrary octets, like the indeterminate fields
`mac_alloc` returns, and an empty packet of length 0. Nothing
reads those values before they are written, except the free of the packet
pointer in `mac_dealloc`, which is left out (see below).

## Model

| member | source | states |
|---|---|---|
| HexScan.HexValue | wol/main.c:74 | a run of hex digits is read most significant digit first into an accumulator; the contract states that the value never drops below the accumulator, and `HexValueAppend` states the positional step |
| HexScan.HexValueBound | wol/main.c:74 | reading `k` more digits into accumulator `a` gives a value from `a * 16^k` up to, not including, `(a + 1) * 16^k` |
| HexScan.HexNumber | wol/main.c:74 | the value of a `k`-digit field is below 16^k, so two digits always give an octet below 256 |
| HexScan.HexValueAppend | wol/main.c:74 | a `%x` value is positional: one more digit at the end multiplies the value so far by 16 and adds the digit |
| HexScan.Convert | wol/main.c:74 | one `%x` conversion splits the text into a run of hex digits and the remainder, and the remainder does not start with a hex digit |
| HexScan.ConvertOf | wol/main.c:74 | a conversion reads exactly the digits in front of any text that does not start with a digit, so the split is unique |
| HexScan.ScanFields | wol/main.c:74 | the contract states only that at most `n` fields are converted; what they are is stated by `ScanFieldsSplit` (every scan that converts a field), its converses `ScanJoined` and `ScanJoinedColon`, `ScanFieldsSpelled` and `ScanFieldsAreHexRuns` |
| HexScan.Scan | wol/main.c:74 | the values `sscanf` stores, whose number is its return value; the contract states only that there are at most six, and `ParseMacSpec`, `OnlyColonSeparates`, `ScanStopsAfterColon`, `NoDigitRejected` and `TrailingTextIgnored` state which |
| HexScan.Values | wol/main.c:74 | one value per converted field, in order; the contract states the count, and `OctetFieldsValues` that two-digit fields give back their octets |
| HexScan.ParseMac | wol/main.c:74-76 | the `!= 6` test: the contract states that a success carries six octets; `ParseMacSpec` states exactly when it succeeds, in both directions |
| HexScan.ScanFieldsAreHexRuns | wol/main.c:74 | every field the scan converts is a non-empty run of hex digits |
| HexScan.ScanFieldsStep | wol/main.c:74 | a field followed by `:` costs one conversion, and the scan resumes after the `:` |
| HexScan.ScanFieldsLast | wol/main.c:74 | a field followed by anything but `:` (or the last conversion) ends the scan right after that field |
| HexScan.ScanJoined | wol/main.c:74 | scanning `:`-separated hex fields gives back exactly those fields and the unread rest |
| HexScan.ScanJoinedCons | wol/main.c:74 | the step of that induction: the first field, then the scan of the other fields |
| HexScan.ScanFieldsSplit | wol/main.c:74 | every scan that converts a field either ends with unread text that does not continue the last field, or, with conversions left, stops after a `:` at text where the next conversion fails; the fields joined by `:` and that rest give back the input |
| HexScan.ScanFieldsNoDigit | wol/main.c:74 | text that does not start with a hex digit stops the scan before any conversion, and nothing is read |
| HexScan.ScanColonLast | wol/main.c:74 | a field, a `:` and then no digit: the scan converts that one field, consumes the `:` and stops |
| HexScan.ScanJoinedColon | wol/main.c:74 | `:`-separated fields, fewer than the conversions, then one more `:` and no digit, give back exactly those fields and the text after the last `:` (for example `01:zz` gives 0x01) |
| HexScan.ScanStopsAfterColon | wol/main.c:74-75 | one to five fields followed by `:` and no digit scan to their values, in order, and do not parse |
| HexScan.ScanFieldsSpelled | wol/main.c:74 | when all `n` conversions succeed, the input is the fields joined by `:`, then text that does not continue the last field |
| HexScan.ParseMacSpec | wol/main.c:74-76 | the parse gives `Some(m)` exactly when the input is six `:`-separated hex fields with values `m`, followed by anything that does not continue the sixth field (both directions) |
| HexScan.TooFewFieldsRejected | wol/main.c:74-75 | fewer than six fields, not followed by `:`, make `sscanf` return less than 6, so the parse fails |
| HexScan.OnlyColonSeparates | wol/main.c:74-75 | a field followed by any non-digit other than `:` stops the scan after one value, and the parse fails |
| HexScan.TrailingTextIgnored | wol/main.c:74 | text after a parsed address that does not extend the sixth field does not change the result |
| HexScan.HexOctet | wol/main.c:74 | an octet below 256 written as two hex digits is a field whose `%x` value is the octet |
| HexScan.OctetFieldsValues | wol/main.c:74 | octets written as two-digit fields convert back to the same octets, in order |
| HexScan.ParseFormat | wol/main.c:74-78 | every address written in the colon form parses back to its six octets |
| HexScan.ExampleAddressFormat | wol/main.c:68-69 | the example `01:23:45:67:89:ab` is the colon form of octets 0x01 0x23 0x45 0x67 0x89 0xab |
| HexScan.ExampleAddressParses | wol/main.c:68-69 | the example address parses to those six octets |
| HexScan.DashFormRejected | wol/main.c:66 | `01-23-45-67-89-ab` scans to the single value 0x01 and does not parse, despite the doc comment |
| HexScan.NoDigitRejected | wol/main.c:74-75 | any text that does not start with a hex digit, the empty text included, converts nothing and does not parse |
| HexScan.NotAnAddressRejected | wol/main.c:74-75 | `not-a-mac`, which starts with a non-hex letter, converts nothing and does not parse |
| MagicPacket.ToByte | wol/main.c:50-55 | storing an `int` octet into the `char` buffer keeps its low eight bits: the byte differs from the value by a multiple of 256, and an octet below 256 is stored unchanged |
| MagicPacket.Packet | wol/main.c:36-56 | the contract states only the length, 102 bytes; the contents are stated by `PacketLayout` and `MagicPacketUnique` |
| MagicPacket.RepeatAt | wol/main.c:49-56 | byte `k` of copy `i` in the sixteen repetitions is address byte `k` |
| MagicPacket.PacketAt | wol/main.c:36-56 | byte 6 * i + k of the packet is 0xFF for block 0 and octet `k` modulo 256 for blocks 1 to 16 |
| MagicPacket.PacketLayout | wol/main.c:36-56 | the packet has 102 bytes, 0xFF in bytes 0 to 5, and octet `j % 6` modulo 256 in every byte `j` from 6 to 101 |
| MagicPacket.MagicPacketUnique | wol/main.c:36-56 | a byte sequence has that layout exactly when it is the packet (both directions) |
| MagicPacket.PacketBlock | wol/main.c:49-56 | each of blocks 1 to 16 is byte for byte the six address bytes |
| MagicPacket.PacketAddressRecovered | wol/main.c:49-56 | octets below 256 can be read back from bytes 6 to 11 |
| MagicPacket.PacketInjective | wol/main.c:49-56 | different addresses with octets below 256 give different packets |
| MagicPacket.PacketModulo | wol/main.c:50-55 | octets that agree modulo 256 give the same packet |
| Mac.MacAddress.constructor | wol/main.c:25-27 | a fresh record with a six-octet array and no packet yet |
| Mac.MacAddress.BuildPacket | wol/main.c:34-59 | sets `packetLength` to 6 * 17, gives the record a fresh buffer holding exactly the magic packet of its octets, and leaves the octets alone |
| Mac.MacAddress.FromString | wol/main.c:73-79 | stores the scanned values into the first octets and leaves the rest unchanged; returns true exactly when six were converted; on success the packet is built, on failure the packet and its length are unchanged |
| Mac.BuildTwice | wol/main.c:34-59 | building twice from the same octets gives byte-identical packets, both the magic packet |
| Mac.FilledIsPacket | wol/main.c:43-56 | a buffer filled as the two loops fill it is the magic packet |
| Cli.ExitStatus | wol/main.c:124-157 | the status `main` returns is 0, 2 or 3, and 0 with no argument; `ExitStatusCases` states which status goes with which path |
| Cli.Transmitted | wol/main.c:140-148 | the payload `mac_wake` gets: when there is one, there was an argument and it is 102 bytes; `TransmittedIsMagicPacket` states that it is the magic packet of the parsed octets and exactly when it is sent |
| Cli.Run | wol/main.c:124-157 | returns the exit status `ExitStatus` describes and hands `mac_wake` the parsed address's packet, or nothing on the usage and bad-address paths |
| Cli.ExitStatusCases | wol/main.c:124-157 | status 0 exactly for no argument or a successful send, 2 exactly for an argument that does not parse, 3 exactly for a failed send, and no other status |
| Cli.TransmittedIsMagicPacket | wol/main.c:140-148 | a packet is sent exactly when there is an argument and it parses, and it is then the 102-byte magic packet of the parsed octets |
| Cli.ExtraArgumentsIgnored | wol/main.c:140 | only the first argument affects the status and the packet |
| Cli.ExampleAddressRun | wol/main.c:128 | `wol 01:23:45:67:89:ab` sends the packet of those octets and exits with 0 or 3 as the send goes |
| Cli.NotAnAddressRun | wol/main.c:140-146 | `wol not-a-mac` sends nothing and exits with 2 |
| Cli.DashFormRun | wol/main.c:140-146 | `wol 01-23-45-67-89-ab` sends nothing and exits with 2 |

## Left out

- `mac_wake` (wol/main.c:86-111) opens a UDP socket, enables broadcast, and sends to 255.255.255.255 port 9. Sockets are I/O, so only its outcome is modelled, as `sendOk` in `Cli.Run`.
- `mac_alloc` failing (exit status 1, wol/main.c:133-138) and the packet `malloc` failing in `mac_build_packet` (which makes `mac_from_str` return 0 and `main` exit with 2) are out of scope: allocation is modelled as always succeeding.
- `mac_dealloc` and `mac_free_packet` (wol/main.c:61-63, 116-122) release memory, which Dafny has no notion of. On the bad-address path (wol/main.c:144, 117-118) `mac_dealloc` tests and frees the `packet` pointer, which was never set on that path: that is undefined behaviour in C. Exit status 2 (`Cli.ExitStatusCases`, `Cli.NotAnAddressRun`, `Cli.DashFormRun`) is therefore what `main` returns only if that free does not crash the program; the model assumes it does not.
- The `printf` usage and error messages (wol/main.c:126-128, 136, 141-142, 149) are output only.
- HexScan.Convert: several details of `sscanf` are not modelled: skipping leading white space before a `%x`, an optional sign or `0x` prefix, and `int` overflow of a long digit run. A field is exactly a run of hex digits, and its value is an unbounded `nat`.
- `argc == 0` (an empty argument vector, program name included) cannot be expressed, because the model's `argc` is `|args| + 1`. In C it fails the `argc == 1` test at wol/main.c:125 and then reads `argv[1]` past the terminating null pointer, which is undefined behaviour.
- HexScan.Scan: an empty input, for which `sscanf` returns `EOF` (-1), is not told apart from zero conversions; both are "fewer than six".
