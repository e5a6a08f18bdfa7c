# WOLTool in Dafny

WOLTool is a command-line Wake-on-LAN sender. It reads a MAC address and
options from its arguments. It builds the 102-byte magic packet, six bytes of
0xFF followed by sixteen copies of the MAC. It sends the packet by UDP to a
broadcast address, either the one given or the directed broadcast address of
the host's first IPv4 address. If a host name is known, it pings that host
first, and afterwards, unless told not to wait, until the host answers or the
timeout has passed. The exit code says how the run went: 0 for success, 1
for an error, 2 when the host was already up, 3 on timeout.

This project models that core and proves properties of the model:

- `MacAddress`: `WOLHelper.ParseMacAddress`.
  - `String.Split(':')`, with its left inverse `Join`.
  - The segment rule of `Convert.ToByte(part, 16)`: an optional `+`, then an optional `0x`/`0X`, then one or more hexadecimal digits whose value is at most 0xFF.
  - The byte-filling loop.
  - A canonical formatter with a round-trip lemma.
- `NetworkInfo`:
  - `GetLocalIpAddresses`: the IPv4 filter over the host's DNS address list.
  - `GetSubnetMask`: the nested first-match search over the interfaces' unicast addresses.
  - `GetBroadcastAddress`: default address, mask lookup, and the octet loop `ip | (mask ^ 255)`.
- `MagicPacket`: the packet buffer, filled in place as an `array`, and the whole of `SendMagicPacket` with its exception wrapping.
- `Options`: the `ProgramOptions` record and its defaults.
- `CommandLine`: `Program.GetOptions`, the `for` loop over the arguments that updates seven locals.
  - Its specification is a declarative reading of the scan.
    - The first element whose check fails, or `--help`, ends the scan.
    - Otherwise each value-taking switch holds the value after its last occurrence that has one.
    - Each flag is set by any occurrence.
  - The method is proved equal to that reading.
- `Wake`: `Program.Main`, as a method `Run` with its early returns and its polling loop.
  - Its specification is the function `Behaviour`, and `ExitCode` maps outcomes to the four exit codes.

The imperative parts keep their imperative form:
- the byte loop of `ParseMacAddress`;
- the two buffer loops and `Buffer.BlockCopy`;
- the octet loop;
- the nested `foreach` with early return;
- the list-appending loop;
- the argument scan;
- the polling loop.

Each of these methods is proved against a specification: its result or new state equals a function of its inputs, or its contract states the property outright. The properties of those functions are proved as lemmas.

The .NET library and the operating system appear as inputs:
- `IPAddress.TryParse` and `int.TryParse` are the functions of a `Parsers` value.
- The DNS address list and the interface table form a `Network` value.
- The first ping, whether the socket works, and the trace of polling pings, each with the seconds read from the clock after it, form a `World` value.

Behaviours of the code worth noting:

- The usage text calls `--timeout` the "Maximum time (in seconds) to wait for the host to boot up" (WOLTool/Program.cs:59). Yet a host that answers during polling is reported up, with exit code 0, whatever the elapsed time: the answer is never compared with the timeout (WOLTool/Program.cs:214-222). So its reported time can exceed the timeout when the answer comes from a probe that began in time (`Wake.LateAnswerCountsAsUp`).
- The error message names the format `AA:BB:CC:DD:EE:FF` (WOLTool/WOLHelper.cs:47), but only the count of parts is checked against it. Each part goes to `Convert.ToByte` in base 16, which also accepts a sign and a radix prefix, such as `+7` and `0x1F` (`MacAddress.ToByteBase16SignedExample`, `MacAddress.ToByteBase16PrefixedExample`).
- The scan acts on `--help` and on a rejected value at the position where it meets them (WOLTool/Program.cs:78-146). A MAC switch checks the element after it at once, so `-m -h` fails on the MAC (`CommandLine.MacValueCheckedFirst`). A hostname switch only stores the element after it, and the scan then reads that element as a switch of its own, so `-H -h` shows the help (`CommandLine.HostnameValueRescannedAsHelp`).

## Model

| member | source | states |
|---|---|---|
| MacAddress.Split | WOLTool/WOLHelper.cs:44 | splitting always yields at least one part |
| MacAddress.JoinSplit | WOLTool/WOLHelper.cs:44 | joining the parts with the separator gives back the text |
| MacAddress.SplitPartsHaveNoSeparator | WOLTool/WOLHelper.cs:44 | no part contains the separator |
| MacAddress.SplitCount | WOLTool/WOLHelper.cs:44-45 | the number of parts is one more than the number of separators |
| MacAddress.SplitWithoutSeparator | WOLTool/WOLHelper.cs:44 | a text without the separator splits into itself alone |
| MacAddress.SplitAfterPiece | WOLTool/WOLHelper.cs:44 | a separator-free prefix followed by the separator is the first part |
| MacAddress.SplitJoin | WOLTool/WOLHelper.cs:44 | splitting a join of separator-free parts gives back the parts |
| MacAddress.DigitValue | WOLTool/WOLHelper.cs:55 | a hexadecimal digit has a value below 16 |
| MacAddress.DigitsAfterSignAndPrefix | WOLTool/WOLHelper.cs:55 | after an optional `+` and `0x`/`0X`, the digits are what `Convert.ToByte` reads |
| MacAddress.ToByteBase16Accepts | WOLTool/WOLHelper.cs:55 | sign, prefix and digits of value at most 0xFF convert to that value |
| MacAddress.ToByteBase16RejectsOverRange | WOLTool/WOLHelper.cs:55-60 | digits whose value exceeds 0xFF are rejected |
| MacAddress.ForeignCharSurvivesPrefix | WOLTool/WOLHelper.cs:55 | a character other than a digit or `x` still stands after the prefix is removed |
| MacAddress.ToByteBase16RejectsForeignChar | WOLTool/WOLHelper.cs:55-60 | a part holding a character that is no digit, sign or `x` is rejected |
| MacAddress.TwoHexDigits | WOLTool/WOLHelper.cs:55 | two hexadecimal digits convert to 16 times the first plus the second |
| MacAddress.ToByteBase16AcceptedExamples | WOLTool/WOLHelper.cs:55 | `FF` and `0a` convert to 0xFF and 0x0A |
| MacAddress.ToByteBase16PrefixedExample | WOLTool/WOLHelper.cs:55 | `0x1F` converts to 0x1F |
| MacAddress.ToByteBase16SignedExample | WOLTool/WOLHelper.cs:55 | `+7` converts to 0x07 |
| MacAddress.ToByteBase16RejectedExamples | WOLTool/WOLHelper.cs:55-60 | the empty part, `0x`, `100`, `G1` and `-1` are rejected |
| MacAddress.MacBytes | WOLTool/WOLHelper.cs:50-63 | a valid MAC yields six bytes |
| MacAddress.ParseMacAddress | WOLTool/WOLHelper.cs:42-64 | fails with the part count unless there are six parts; succeeds iff `ToByteBase16` accepts every part, with byte k its value for part k; otherwise fails naming the first part that does not convert |
| MacAddress.ConvertParts | WOLTool/WOLHelper.cs:50-63 | the loop over six parts succeeds iff `ToByteBase16` accepts every part, byte k being its value for part k; otherwise it names the first part that does not convert |
| MacAddress.ValidMacHasFiveSeparators | WOLTool/WOLHelper.cs:44-48 | a valid MAC has exactly five colons |
| MacAddress.HexDigit | WOLTool/WOLHelper.cs:55 | the digit written for a value reads back as that value |
| MacAddress.FormatByte | WOLTool/WOLHelper.cs:47 | a byte is written as two characters with no colon |
| MacAddress.TwoDigitGroupsAccepted | WOLTool/WOLHelper.cs:44-61 | six two-digit groups joined by colons form a valid MAC whose bytes are the group values |
| MacAddress.FormatMacRoundTrip | WOLTool/WOLHelper.cs:42-64 | parsing the `AA:BB:CC:DD:EE:FF` form of six bytes gives back those bytes |
| MacAddress.DashSeparatedRejected | WOLTool/WOLHelper.cs:44-48 | `AA-BB-CC-DD-EE-FF` is rejected |
| MacAddress.WithoutColonRejected | WOLTool/WOLHelper.cs:44-48 | a text without a colon is rejected |
| NetworkInfo.IPv4OnlyMembers | WOLTool/WOLHelper.cs:70-76 | the filter keeps exactly the IPv4 addresses of the list |
| NetworkInfo.IPv4OnlyConcat | WOLTool/WOLHelper.cs:70-76 | filtering a concatenation concatenates the filtered parts, so order is kept |
| NetworkInfo.IPv4OnlyKeepsIPv4List | WOLTool/WOLHelper.cs:70-76 | a list of IPv4 addresses is kept whole |
| NetworkInfo.GetLocalIpAddresses | WOLTool/WOLHelper.cs:66-78 | the appending loop returns `IPv4Only` of the host's addresses: the IPv4 entries in their order |
| NetworkInfo.MaskAmongIsFirstMatch | WOLTool/WOLHelper.cs:113-119 | the mask found belongs to the first entry with the address; none iff no entry has it |
| NetworkInfo.MaskAmongConcat | WOLTool/WOLHelper.cs:111-121 | searching a concatenation searches the first part, then the second |
| NetworkInfo.SubnetMaskInInterfaceOrder | WOLTool/WOLHelper.cs:109-122 | the nested search is the flat search over interfaces then addresses |
| NetworkInfo.SubnetMaskIsFirstMatch | WOLTool/WOLHelper.cs:109-122 | the mask is that of the first entry, in interface-then-address order, with the address; none iff no entry has it |
| NetworkInfo.GetSubnetMask | WOLTool/WOLHelper.cs:109-122 | the two loops with early return compute `SubnetMask`, the first match |
| NetworkInfo.BroadcastOctet | WOLTool/WOLHelper.cs:104 | `ip \| (mask ^ 255)` is the octet with the network bits of the address and every host bit set |
| NetworkInfo.DirectedBroadcastIsTopOfSubnet | WOLTool/WOLHelper.cs:98-106 | the result has the address's length and is the one address in its subnet with all host bits set |
| NetworkInfo.DirectedBroadcastExamples | WOLTool/WOLHelper.cs:98-106 | 192.168.1.10/255.255.255.0 gives 192.168.1.255; 10.0.0.5/255.0.0.0 gives 10.255.255.255 |
| NetworkInfo.DefaultBroadcastAddress | WOLTool/WOLHelper.cs:80-107 | without an address, no local IPv4 address is the error; otherwise the first one is used, and only a missing mask fails |
| NetworkInfo.BroadcastAddressExample | WOLTool/WOLHelper.cs:66-107 | a host listing an IPv6 address before 192.168.1.10/24 broadcasts to 192.168.1.255 |
| NetworkInfo.GetBroadcastAddress | WOLTool/WOLHelper.cs:80-107 | the method, with its octet loop, returns `BroadcastAddress`: the address built octet by octet by `DirectedBroadcast`, or its error |
| MagicPacket.RepeatLength | WOLTool/WOLHelper.cs:28-31 | n copies of s are n times as long as s |
| MagicPacket.RepeatAt | WOLTool/WOLHelper.cs:28-31 | copy k holds the bytes of s in order |
| MagicPacket.MagicPacketAt | WOLTool/WOLHelper.cs:28-31 | byte 6 + 6k + j of the packet is MAC byte j, for k < 16 and j < 6 |
| MagicPacket.MagicPacketLayout | WOLTool/WOLHelper.cs:23-31 | the packet is 102 bytes, the first six 0xFF, each later byte the MAC byte its offset selects |
| MagicPacket.BlockCopy | WOLTool/WOLHelper.cs:30 | the source bytes land at the offset, and nothing else in the buffer changes |
| MagicPacket.BuildPacket | WOLTool/WOLHelper.cs:23-31 | a fresh buffer equal to the magic packet, after exactly 16 copies |
| MagicPacket.SendResultSpec | WOLTool/WOLHelper.cs:11-40 | a datagram goes out iff the address resolves, the MAC is valid, the port is accepted and the socket works; it goes to that address and port and carries the 102-byte packet |
| MagicPacket.SendMagicPacket | WOLTool/WOLHelper.cs:11-40 | the method returns `SendResult`: the datagram sent, or the exception wrapping the first failure |
| Options.DefaultOptions | WOLTool/ProgramOptions.cs:9-21 | empty MAC, no host name, no broadcast address, port 9, timeout 300, wait, not silent |
| CommandLine.FirstStop | WOLTool/Program.cs:76-147 | the first element, from a position on, whose check ends the scan; or none |
| CommandLine.LastValueAtIsLast | WOLTool/Program.cs:82-84 | the last occurrence of a switch with an element after it, or none |
| CommandLine.LastValueAtUnique | WOLTool/Program.cs:82-84 | an occurrence with no later occurrence is the last one |
| CommandLine.LastValueAtAbsent | WOLTool/Program.cs:82-84 | with no occurrence there is no last one |
| CommandLine.AcceptedValue | WOLTool/Program.cs:102-131 | an element that passes its check is followed by a parsed address, a port in 1..65535 or a positive timeout |
| CommandLine.AcceptedMac | WOLTool/Program.cs:80-94 | a MAC switch that passes its check is followed by a valid MAC |
| CommandLine.ClearedValueAccepted | WOLTool/Program.cs:102-131 | the same for every element of a prefix that nothing stopped |
| CommandLine.ClearedMacAccepted | WOLTool/Program.cs:80-94 | the same for MAC switches in a prefix that nothing stopped |
| CommandLine.ParseArgumentsStopsAt | WOLTool/Program.cs:76-147 | the first element whose check fails, or `--help`, decides the result |
| CommandLine.ParseArgumentsFinishes | WOLTool/Program.cs:149-162 | when nothing stops the scan, the result is built from the locals after it |
| CommandLine.ClearStep | WOLTool/Program.cs:76 | a passing element extends the unstopped prefix |
| CommandLine.LastValueStep | WOLTool/Program.cs:82-84 | one more element: an occurrence with a value becomes the last one |
| CommandLine.MentionedStep | WOLTool/Program.cs:132-139 | one more element: a flag is seen once it occurs |
| CommandLine.NumberStep | WOLTool/Program.cs:112-131 | one more element: an accepted port or timeout replaces the local |
| CommandLine.BroadcastStep | WOLTool/Program.cs:102-111 | one more element: an accepted broadcast address replaces the local |
| CommandLine.SettingsAdvance | WOLTool/Program.cs:78-146 | one turn of the loop updates the locals field by field as the switch says |
| CommandLine.MacParses | WOLTool/Program.cs:85-92 | the try around ParseMacAddress succeeds iff the MAC is valid |
| CommandLine.ScanElement | WOLTool/Program.cs:78-146 | the switch stops the scan with the element's verdict, or updates the locals |
| CommandLine.GetOptions | WOLTool/Program.cs:66-163 | the loop returns `ParseArguments`: the options, the help or the error |
| CommandLine.ParsedMeansCleared | WOLTool/Program.cs:149-162 | parsed options come from a scan nothing stopped |
| CommandLine.ValueVerdictKinds | WOLTool/Program.cs:78-146 | an element that stops the scan shows the help or throws |
| CommandLine.ParsedMeansEveryValueAccepted | WOLTool/Program.cs:80-131 | in parsed arguments, every value read is acceptable |
| CommandLine.ParsedMeansNoHelp | WOLTool/Program.cs:140-145 | parsed arguments contain no `--help` or `-h` |
| CommandLine.ParsedOptionsAreValid | WOLTool/Program.cs:85-131 | parsed options hold a valid MAC, a port in 1..65535 and a positive timeout |
| CommandLine.SettingsMacParses | WOLTool/Program.cs:85-92 | a MAC in the locals after an unstopped scan is valid |
| CommandLine.SettingsNumbersInRange | WOLTool/Program.cs:71-72 | port and timeout in the locals after an unstopped scan are in range |
| CommandLine.MacRequiredExactly | WOLTool/Program.cs:149-152 | the missing-MAC error comes iff nothing stops the scan and no MAC switch has an element after it |
| CommandLine.LastOccurrenceWins | WOLTool/Program.cs:76-131 | a repeated switch overrides: the option holds the value after its last occurrence |
| CommandLine.LastOccurrenceSetting | WOLTool/Program.cs:76-131 | the same for the locals after an unstopped scan |
| CommandLine.FlagsFromAnyOccurrence | WOLTool/Program.cs:132-139 | wait iff no element is `--no-wait`; silent iff some element is `--silent`, even one read as a value |
| CommandLine.AbsentValuesKeepDefaults | WOLTool/Program.cs:68-74 | a host name, broadcast address, port or timeout never read keeps its default |
| CommandLine.LastValueAtExtend | WOLTool/Program.cs:82-84 | appended elements do not change earlier last occurrences |
| CommandLine.NonReaderVerdict | WOLTool/Program.cs:78-146 | an element that reads no value stops the scan only when it is `--help` or `-h` |
| CommandLine.LastValueAtInsertion | WOLTool/Program.cs:82-124 | just past an inserted unknown element, the last occurrence of a switch is the one in `a`, provided `a` does not end with that switch |
| CommandLine.LastValueAtInsert | WOLTool/Program.cs:82-124 | an unknown element inserted after `a` leaves the last occurrence of a switch the same element, one place on when it lies after the insertion |
| CommandLine.ShiftedLastValue | WOLTool/Program.cs:82-124 | corresponding last occurrences read the same value when the one found is not at the insertion point |
| CommandLine.LastValueInsert | WOLTool/Program.cs:82-124 | an inserted unknown element that the switch before it does not read changes no switch's last value |
| CommandLine.MentionedInsert | WOLTool/Program.cs:131-138 | an inserted unknown element changes no flag |
| CommandLine.VerdictInsert | WOLTool/Program.cs:78-146 | an inserted unknown element that the switch before it does not read stops nothing and leaves every other verdict as it was, shifted past the insertion |
| CommandLine.ClearInsert | WOLTool/Program.cs:78-146 | the insertion moves a stretch free of stops to a stretch free of stops |
| CommandLine.UnknownArgumentIgnored | WOLTool/Program.cs:78-146 | an element that is no switch, inserted anywhere except as the value of a value-taking switch, is ignored: the result is as without it |
| CommandLine.SettingsInsert | WOLTool/Program.cs:78-146 | the same for the locals, when nothing stops the scan |
| CommandLine.TrailingSwitchReadsNothing | WOLTool/Program.cs:82-124 | a value-taking switch in the last position, not itself read as a value, changes nothing |
| CommandLine.SettingsExtend | WOLTool/Program.cs:82-124 | the same for the locals |
| CommandLine.ValidMacIsNoSwitch | WOLTool/Program.cs:78-146 | a valid MAC is not a switch label |
| CommandLine.LabelsHaveNoColon | WOLTool/Program.cs:80-141 | no case label contains a colon |
| CommandLine.MacAloneGivesDefaults | WOLTool/Program.cs:66-163 | `-m <mac>` gives the defaults with that MAC |
| CommandLine.ConsumedValueRescanned | WOLTool/Program.cs:76-135 | in `-H -n -m <mac>` the host name is `-n` and `-n` also turns waiting off |
| CommandLine.HostnameValueRescannedAsHelp | WOLTool/Program.cs:95-145 | `-H -h -m <mac>` shows the help |
| CommandLine.MacValueCheckedFirst | WOLTool/Program.cs:80-92 | `-m -h` fails on the MAC before `-h` is reached |
| CommandLine.PortOutOfRangeRejected | WOLTool/Program.cs:112-119 | a port outside 1..65535 is refused |
| CommandLine.NonPositiveTimeoutRejected | WOLTool/Program.cs:122-129 | a timeout of zero or less is refused |
| Wake.IsHostAlive | WOLTool/Program.cs:165-179 | alive iff the ping replied with Success; an exception counts as not alive |
| Wake.ExitCode | WOLTool/Program.cs:14-17 | 0 iff help, sent or up; 1 iff failed; 2 iff already up; 3 iff timed out |
| Wake.PollFirstDecisive | WOLTool/Program.cs:212-235 | the loop ends at the first probe that answers or is past the timeout, with that probe's outcome; still waiting iff there is none |
| Wake.PollTimedOut | WOLTool/Program.cs:223-232 | timed out iff some probe failed strictly past the timeout after probes that failed in time |
| Wake.PollCameUp | WOLTool/Program.cs:214-222 | up with s seconds iff some probe answered, after probes that failed in time, at an elapsed time whose floor is s |
| Wake.PollDecidedAt | WOLTool/Program.cs:212-235 | a deciding probe after in-time failures decides the loop |
| Wake.LateAnswerCountsAsUp | WOLTool/Program.cs:214-222 | an answer read after the timeout still counts as up |
| Wake.TimeoutIsStrict | WOLTool/Program.cs:226 | a failure at exactly the timeout keeps the loop going |
| Wake.Run | WOLTool/Program.cs:181-247 | the flow with its early returns and polling loop gives `Behaviour`: the outcome and the datagram sent |
| Wake.PollHost | WOLTool/Program.cs:210-235 | the polling loop with its early exits returns `Poll`: the outcome the first deciding probe gives |
| Wake.AfterParsingKinds | WOLTool/Program.cs:192-237 | after parsing the run never shows the help or reports an argument error, and a failure sends nothing |
| Wake.HelpExactly | WOLTool/Program.cs:140-145 | help iff the arguments ask for it; nothing is sent then |
| Wake.AlreadyUpExactly | WOLTool/Program.cs:192-196 | exit code 2 iff a host name is given and answers the first ping; nothing is sent then |
| Wake.AfterParsingUp | WOLTool/Program.cs:192-196 | the same for parsed options |
| Wake.FailureExactly | WOLTool/Program.cs:239-246 | a failure sends nothing; an argument error iff the options are refused; a broadcast error iff the derivation, when reached, fails |
| Wake.AfterParsingNoBroadcast | WOLTool/Program.cs:198-201 | the broadcast error comes iff the derivation is reached and fails |
| Wake.SendFailsOnlyInTransport | WOLTool/Program.cs:204 | after parsing, a send can fail only in the socket, and fails iff the socket does |
| Wake.AfterParsingSendFailure | WOLTool/Program.cs:198-204 | the same for valid parsed options |
| Wake.SentDatagram | WOLTool/Program.cs:198-204 | what is sent is the 102-byte magic packet of the parsed MAC, to the given or derived address and the parsed port |
| Wake.SentExactly | WOLTool/Program.cs:204-236 | something is sent iff the run ends sent, up, timed out or still waiting |
| Wake.PollNeverFails | WOLTool/Program.cs:212-235 | the loop ends only with the host up or the timeout past |
| Wake.NoWaitingAfterSend | WOLTool/Program.cs:208-237 | with no host name or `--no-wait`, a successful send ends with exit code 0 |
| Wake.WaitingFollowsPoll | WOLTool/Program.cs:208-236 | with a host name and waiting on, the run ends as the polling loop does |
| Wake.TimeoutNeedsLateFailure | WOLTool/Program.cs:208-232 | exit code 3 needs a host name, waiting on, and a failed probe strictly past the timeout |

## Left out

- Console output: the banner, the usage text, the colours and the silent-mode gating of `ConsoleWriteLine`. The `silent` option is parsed and kept but has no effect in the model.
- `Environment.Exit(0)` after `--help` is the result `HelpRequested` of the scan and the outcome `HelpShown` of the run.
- The process and network calls are inputs, not modelled:
  - `Dns.GetHostEntry`, `NetworkInterface.GetAllNetworkInterfaces` and `Ping.SendPingAsync`, including its 1000 ms per-attempt limit;
  - `UdpClient.Connect`/`Send`, given as a single success flag;
  - `IPAddress.TryParse` and `int.TryParse`, given as opaque parsing functions.
- An exception thrown by `Dns.GetHostEntry` or `NetworkInterface.GetAllNetworkInterfaces` (WOLTool/WOLHelper.cs:69, 111) would reach the `catch` of `Main`. A `Network` value always lists addresses and interfaces, so the model has no such failure.
- `new UdpClient()` (WOLTool/WOLHelper.cs:19) opens an IPv4 socket, so an explicit IPv6 broadcast address fails at `Connect`. The library also enables broadcasting on its own only for 255.255.255.255. Socket families and options are not modelled; both show up, at most, as the transport flag being false.
- The socket is created before `Connect` checks the port (WOLTool/WOLHelper.cs:19-21), whereas `SendResult` tests `PortOutOfRange` before the transport flag. Both failures become the same `MagicPacketException` and the same exit code, so only the recorded cause can differ.
- `async`/`await`: the flow is modelled as sequential calls.
- The clock: each polling probe carries the elapsed seconds read after it, as a `real`. The clock itself, and the relation between consecutive readings, are not modelled.
- `Wake.PollHost`: the `while (true)` loop runs over a finite trace of probes. When the trace ends without a decision, the outcome is `StillPolling`, which has no exit code. The real program would keep probing.
- `IPAddress.Equals` is equality of address bytes. IPv6 scope ids are not modelled.
- An explicit IPv6 address with a 4-byte IPv4 mask makes the octet loop read past the end of the mask. The model returns the error `MaskShorterThanAddress` instead of modelling the .NET exception.
- Exceptions are modelled as error values that name their cause. The message texts are not modelled, apart from the MAC part named by `ParseMacAddress`.
- The static field `_options` is a local value in `Run`. Its `Broadcast` update at WOLTool/Program.cs:200 is a record update.
- WOLTool/MagicPacketException.cs is only the constructors of an exception type. It is modelled as the datatype `MagicPacketException`, which holds the cause.
