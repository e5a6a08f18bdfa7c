/**
 * `Program.GetOptions`: one pass over the argument list. Each element is
 * compared with the switches; a value-taking switch reads the element after
 * it (when there is one) without skipping it, so that element is examined as
 * a switch in turn. `--help` ends the process, an unacceptable value throws,
 * and a missing MAC throws after the pass.
 */
module CommandLine {
  import opened Wrappers
  import opened Bytes
  import opened MacAddress
  import opened NetworkInfo
  import opened Options

  /** The parsers of the .NET library that GetOptions relies on: `IPAddress.TryParse` and `int.TryParse`. */
  datatype Parsers = Parsers(tryParseAddress: string -> Option<Address>, tryParseInt: string -> Option<int32>)

  /** The switches GetOptions knows. */
  datatype Switch =
    | MacSwitch | HostnameSwitch | BroadcastSwitch | PortSwitch | TimeoutSwitch
    | NoWaitSwitch | SilentSwitch | HelpSwitch

  /** The case labels of the `switch` in GetOptions, with the switch each selects. */
  const SwitchLabels: map<string, Switch> := map[
    "--mac_address" := MacSwitch, "-m" := MacSwitch,
    "--hostname" := HostnameSwitch, "-H" := HostnameSwitch,
    "--broadcast" := BroadcastSwitch, "-b" := BroadcastSwitch,
    "--port" := PortSwitch, "-p" := PortSwitch,
    "--timeout" := TimeoutSwitch, "-t" := TimeoutSwitch,
    "--no-wait" := NoWaitSwitch, "-n" := NoWaitSwitch,
    "--silent" := SilentSwitch, "-s" := SilentSwitch,
    "--help" := HelpSwitch, "-h" := HelpSwitch
  ]

  /** The switch an element spells, if any; labels are compared exactly, so case matters. */
  function SwitchOf(a: string): Option<Switch> {
    if a in SwitchLabels then Some(SwitchLabels[a]) else None
  }

  /** `a` is one of the two spellings of switch `s`. */
  predicate Names(s: Switch, a: string) {
    SwitchOf(a) == Some(s)
  }

  /** Switches that read the next element. */
  predicate TakesValue(s: Switch) {
    s in {MacSwitch, HostnameSwitch, BroadcastSwitch, PortSwitch, TimeoutSwitch}
  }

  /** The ArgumentException messages of GetOptions, by cause. */
  datatype OptionError =
    | InvalidMacFormat        // "Invalid MAC address format."
    | InvalidBroadcastFormat  // "Invalid broadcast address format."
    | InvalidPort             // "Invalid port number."
    | InvalidTimeout          // "Invalid timeout value."
    | MacRequired             // "MAC address are required."

  /** GetOptions returns options, ends the process after printing the help, or throws. */
  datatype ParseResult = Parsed(options: ProgramOptions) | HelpRequested | Rejected(error: OptionError)

  /** The port test of GetOptions: an integer in 1..65535. */
  predicate AcceptablePort(n: Option<int32>) {
    n.Some? && 0 < n.value <= 65535
  }

  /** The timeout test of GetOptions: a positive integer. */
  predicate AcceptableTimeout(n: Option<int32>) {
    n.Some? && n.value > 0
  }

  /**
   * Whether position j ends the pass, and how: `--help` anywhere, or a
   * value-taking switch followed by a value it does not accept. A switch in
   * the last position reads nothing and so rejects nothing.
   */
  function Verdict(args: seq<string>, j: nat, parsers: Parsers): Option<ParseResult>
    requires j < |args|
  {
    match SwitchOf(args[j])
    case Some(HelpSwitch) => Some(HelpRequested)
    case Some(s) => if j + 1 < |args| then ValueVerdict(s, args[j + 1], parsers) else None
    case None => None
  }

  /** The test a value-taking switch puts to the element after it. */
  function ValueVerdict(s: Switch, v: string, parsers: Parsers): Option<ParseResult> {
    match s
    case MacSwitch => if ValidMac(v) then None else Some(Rejected(InvalidMacFormat))
    case BroadcastSwitch => if parsers.tryParseAddress(v).Some? then None else Some(Rejected(InvalidBroadcastFormat))
    case PortSwitch => if AcceptablePort(parsers.tryParseInt(v)) then None else Some(Rejected(InvalidPort))
    case TimeoutSwitch => if AcceptableTimeout(parsers.tryParseInt(v)) then None else Some(Rejected(InvalidTimeout))
    case _ => None
  }

  /** The first position at or after `from` that ends the pass. */
  function FirstStop(args: seq<string>, parsers: Parsers, from: nat): (r: Option<nat>)
    requires from <= |args|
    ensures r.Some? ==>
      from <= r.value < |args| && Verdict(args, r.value, parsers).Some?
      && forall j :: from <= j < r.value ==> Verdict(args, j, parsers).None?
    ensures r.None? ==> forall j :: from <= j < |args| ==> Verdict(args, j, parsers).None?
    decreases |args| - from
  {
    if from == |args| then None
    else if Verdict(args, from, parsers).Some? then Some(from)
    else FirstStop(args, parsers, from + 1)
  }

  /** The last position before `hi` holding a spelling of `s` with an element after it. */
  function LastValueAt(args: seq<string>, s: Switch, hi: nat): Option<nat>
    requires hi <= |args|
    decreases hi
  {
    if hi == 0 then None
    else if hi < |args| && Names(s, args[hi - 1]) then Some(hi - 1)
    else LastValueAt(args, s, hi - 1)
  }

  /** LastValueAt finds an occurrence with an element after it, and no later one before `hi`; or there is none. */
  lemma {:induction false} LastValueAtIsLast(args: seq<string>, s: Switch, hi: nat)
    requires hi <= |args|
    ensures LastValueAt(args, s, hi).Some? ==>
      var k := LastValueAt(args, s, hi).value;
      && k < hi && k + 1 < |args| && Names(s, args[k])
      && forall j :: k < j < hi && j + 1 < |args| ==> !Names(s, args[j])
    ensures LastValueAt(args, s, hi).None? ==> forall j :: 0 <= j < hi && j + 1 < |args| ==> !Names(s, args[j])
    decreases hi
  {
    if hi > 0 && !(hi < |args| && Names(s, args[hi - 1])) {
      LastValueAtIsLast(args, s, hi - 1);
    }
  }

  /** An occurrence with an element after it and no such later occurrence is the one LastValueAt finds. */
  lemma LastValueAtUnique(args: seq<string>, s: Switch, j: nat)
    requires j + 1 < |args| && Names(s, args[j])
    requires forall k :: j < k < |args| - 1 ==> !Names(s, args[k])
    ensures LastValueAt(args, s, |args|) == Some(j)
  {
    LastValueAtIsLast(args, s, |args|);
  }

  /** A switch never followed by an element has no last value. */
  lemma LastValueAtAbsent(args: seq<string>, s: Switch)
    ensures (forall j :: 0 <= j < |args| - 1 ==> !Names(s, args[j])) ==> LastValueAt(args, s, |args|).None?
  {
    LastValueAtIsLast(args, s, |args|);
  }

  /** The element after the last occurrence of `s` before `hi` that has one. */
  function LastValue(args: seq<string>, s: Switch, hi: nat): Option<string>
    requires hi <= |args|
  {
    match LastValueAt(args, s, hi)
    case Some(j) => LastValueAtIsLast(args, s, hi); Some(args[j + 1])
    case None => None
  }

  /** Some position before `hi` spells `s`. */
  predicate Mentioned(args: seq<string>, s: Switch, hi: nat)
    requires hi <= |args|
  {
    exists j :: 0 <= j < hi && Names(s, args[j])
  }

  /** No element before `hi` ends the pass. */
  predicate ClearBefore(args: seq<string>, parsers: Parsers, hi: nat)
    requires hi <= |args|
  {
    forall j :: 0 <= j < hi ==> Verdict(args, j, parsers).None?
  }

  /** A broadcast, port or timeout switch that does not end the pass has accepted the element after it. */
  lemma AcceptedValue(args: seq<string>, parsers: Parsers, j: nat)
    requires j + 1 < |args| && Verdict(args, j, parsers).None?
    ensures Names(BroadcastSwitch, args[j]) ==> parsers.tryParseAddress(args[j + 1]).Some?
    ensures Names(PortSwitch, args[j]) ==> AcceptablePort(parsers.tryParseInt(args[j + 1]))
    ensures Names(TimeoutSwitch, args[j]) ==> AcceptableTimeout(parsers.tryParseInt(args[j + 1]))
  {
  }

  /** A MAC switch that does not end the pass is followed by a MAC that parses. */
  lemma AcceptedMac(args: seq<string>, parsers: Parsers, j: nat)
    requires j + 1 < |args| && Verdict(args, j, parsers).None?
    ensures Names(MacSwitch, args[j]) ==> ValidMac(args[j + 1])
  {
  }

  /** Every broadcast, port or timeout value read before `hi` in a pass that nothing has stopped was accepted. */
  lemma ClearedValueAccepted(args: seq<string>, parsers: Parsers, hi: nat, j: nat)
    requires hi <= |args| && ClearBefore(args, parsers, hi) && j < hi && j + 1 < |args|
    ensures Names(BroadcastSwitch, args[j]) ==> parsers.tryParseAddress(args[j + 1]).Some?
    ensures Names(PortSwitch, args[j]) ==> AcceptablePort(parsers.tryParseInt(args[j + 1]))
    ensures Names(TimeoutSwitch, args[j]) ==> AcceptableTimeout(parsers.tryParseInt(args[j + 1]))
  {
    AcceptedValue(args, parsers, j);
  }

  /** Every MAC read before `hi` in a pass that nothing has stopped parses. */
  lemma ClearedMacAccepted(args: seq<string>, parsers: Parsers, hi: nat, j: nat)
    requires hi <= |args| && ClearBefore(args, parsers, hi) && j < hi && j + 1 < |args|
    ensures Names(MacSwitch, args[j]) ==> ValidMac(args[j + 1])
  {
    AcceptedMac(args, parsers, j);
  }

  /** The broadcast local after the first `hi` elements: the address after the last `--broadcast` that has one. */
  function BroadcastAfter(args: seq<string>, parsers: Parsers, hi: nat): Option<Address>
    requires hi <= |args|
  {
    match LastValue(args, BroadcastSwitch, hi)
    case Some(v) => parsers.tryParseAddress(v)
    case None => None
  }

  /**
   * The port or timeout local after the first `hi` elements, none of which
   * ended the pass: the number after the last occurrence of the switch that
   * has one, or the initial value.
   */
  function NumberAfter(args: seq<string>, parsers: Parsers, s: Switch, initial: int32, hi: nat): int32
    requires s == PortSwitch || s == TimeoutSwitch
    requires hi <= |args| && ClearBefore(args, parsers, hi)
  {
    match LastValueAt(args, s, hi)
    case Some(j) => LastValueAtIsLast(args, s, hi); ClearedValueAccepted(args, parsers, hi, j); parsers.tryParseInt(args[j + 1]).value
    case None => initial
  }

  /** The seven locals of GetOptions. */
  datatype Settings = Settings(
    macAddress: Option<string>,
    hostname: Option<string>,
    broadcast: Option<Address>,
    port: int32,
    timeout: int32,
    wait: bool,
    silent: bool)

  /**
   * The locals after the first `hi` elements, when none of them ended the
   * pass: every value comes from the last occurrence of its switch that has
   * an element after it, or is the initial value; each flag is set once its
   * switch occurs anywhere.
   */
  function SettingsAfter(args: seq<string>, parsers: Parsers, hi: nat): Settings
    requires hi <= |args| && ClearBefore(args, parsers, hi)
  {
    Settings(
      LastValue(args, MacSwitch, hi),
      LastValue(args, HostnameSwitch, hi),
      BroadcastAfter(args, parsers, hi),
      NumberAfter(args, parsers, PortSwitch, DefaultPort, hi),
      NumberAfter(args, parsers, TimeoutSwitch, DefaultTimeout, hi),
      !Mentioned(args, NoWaitSwitch, hi),
      Mentioned(args, SilentSwitch, hi))
  }

  /** The `ProgramOptions` built after the pass, or the missing-MAC error. */
  function Finish(st: Settings): ParseResult {
    if st.macAddress.None? then Rejected(MacRequired)
    else Parsed(ProgramOptions(st.macAddress.value, st.hostname, st.broadcast, st.port, st.timeout, st.wait, st.silent))
  }

  /** What GetOptions does with `args`: the first stop it meets, else the options resolved from the whole list. */
  function ParseArguments(args: seq<string>, parsers: Parsers): ParseResult {
    match FirstStop(args, parsers, 0)
    case Some(j) => Verdict(args, j, parsers).value
    case None => Finish(SettingsAfter(args, parsers, |args|))
  }

  /** The pass stops at the first element that ends it. */
  lemma ParseArgumentsStopsAt(args: seq<string>, parsers: Parsers, i: nat)
    requires i < |args| && ClearBefore(args, parsers, i) && Verdict(args, i, parsers).Some?
    ensures ParseArguments(args, parsers) == Verdict(args, i, parsers).value
  {
    var k := FirstStop(args, parsers, 0);
    assert k.Some?;
    assert !(k.value < i);
    assert !(k.value > i);
  }

  /** A pass that nothing stops builds its result from the settings of the whole list. */
  lemma ParseArgumentsFinishes(args: seq<string>, parsers: Parsers)
    requires ClearBefore(args, parsers, |args|)
    ensures ParseArguments(args, parsers) == Finish(SettingsAfter(args, parsers, |args|))
  {
  }

  /** One more element that does not end the pass. */
  lemma ClearStep(args: seq<string>, parsers: Parsers, i: nat)
    requires i < |args| && ClearBefore(args, parsers, i) && Verdict(args, i, parsers).None?
    ensures ClearBefore(args, parsers, i + 1)
  {
  }

  /** One more element: a value-taking switch followed by an element becomes the last occurrence. */
  lemma {:induction false} LastValueStep(args: seq<string>, s: Switch, i: nat)
    requires i < |args|
    ensures LastValueAt(args, s, i + 1) == (if i + 1 < |args| && Names(s, args[i]) then Some(i) else LastValueAt(args, s, i))
  {
  }

  /** One more element: a flag is seen once it occurs. */
  lemma {:induction false} MentionedStep(args: seq<string>, s: Switch, i: nat)
    requires i < |args|
    ensures Mentioned(args, s, i + 1) <==> Mentioned(args, s, i) || Names(s, args[i])
  {
    if Mentioned(args, s, i + 1) && !Names(s, args[i]) {
      var j :| 0 <= j < i + 1 && Names(s, args[j]);
      assert j < i;
    }
  }

  /** One more element: the number after a port or timeout switch that stays in the pass replaces the local. */
  lemma NumberStep(args: seq<string>, parsers: Parsers, s: Switch, initial: int32, i: nat)
    requires s == PortSwitch || s == TimeoutSwitch
    requires i < |args| && ClearBefore(args, parsers, i + 1)
    ensures i + 1 < |args| && Names(s, args[i]) ==> parsers.tryParseInt(args[i + 1]).Some?
    ensures NumberAfter(args, parsers, s, initial, i + 1) ==
      if i + 1 < |args| && Names(s, args[i]) then parsers.tryParseInt(args[i + 1]).value
      else NumberAfter(args, parsers, s, initial, i)
  {
    LastValueStep(args, s, i);
    if i + 1 < |args| {
      AcceptedValue(args, parsers, i);
    }
  }

  /** One more element: the address after a `--broadcast` replaces the local. */
  lemma BroadcastStep(args: seq<string>, parsers: Parsers, i: nat)
    requires i < |args|
    ensures BroadcastAfter(args, parsers, i + 1) ==
      if i + 1 < |args| && Names(BroadcastSwitch, args[i]) then parsers.tryParseAddress(args[i + 1])
      else BroadcastAfter(args, parsers, i)
  {
    LastValueStep(args, BroadcastSwitch, i);
  }

  /** Element i spells `s` and has an element after it, which `s` then reads. */
  predicate ReadsValue(args: seq<string>, s: Switch, i: nat)
    requires i < |args|
  {
    i + 1 < |args| && Names(s, args[i])
  }

  /** What one element that does not end the pass does to the locals. */
  function Advance(st: Settings, args: seq<string>, parsers: Parsers, i: nat): Settings
    requires i < |args| && Verdict(args, i, parsers).None?
  {
    Settings(
      if ReadsValue(args, MacSwitch, i) then Some(args[i + 1]) else st.macAddress,
      if ReadsValue(args, HostnameSwitch, i) then Some(args[i + 1]) else st.hostname,
      if ReadsValue(args, BroadcastSwitch, i) then parsers.tryParseAddress(args[i + 1]) else st.broadcast,
      if ReadsValue(args, PortSwitch, i) then AcceptedValue(args, parsers, i); parsers.tryParseInt(args[i + 1]).value
      else st.port,
      if ReadsValue(args, TimeoutSwitch, i) then AcceptedValue(args, parsers, i); parsers.tryParseInt(args[i + 1]).value
      else st.timeout,
      st.wait && !Names(NoWaitSwitch, args[i]),
      st.silent || Names(SilentSwitch, args[i]))
  }

  /** The settings after one more element that does not end the pass. */
  lemma SettingsAdvance(args: seq<string>, parsers: Parsers, i: nat)
    requires i < |args| && ClearBefore(args, parsers, i) && Verdict(args, i, parsers).None?
    ensures ClearBefore(args, parsers, i + 1)
    ensures SettingsAfter(args, parsers, i + 1) == Advance(SettingsAfter(args, parsers, i), args, parsers, i)
  {
    ClearStep(args, parsers, i);
    LastValueStep(args, MacSwitch, i);
    LastValueStep(args, HostnameSwitch, i);
    BroadcastStep(args, parsers, i);
    NumberStep(args, parsers, PortSwitch, DefaultPort, i);
    NumberStep(args, parsers, TimeoutSwitch, DefaultTimeout, i);
    MentionedStep(args, NoWaitSwitch, i);
    MentionedStep(args, SilentSwitch, i);
  }

  /** `try { WOLHelper.ParseMacAddress(mac); } catch { … }`: whether the MAC parses; the bytes are dropped. */
  method MacParses(mac: string) returns (ok: bool)
    ensures ok <==> ValidMac(mac)
  {
    var parsed := ParseMacAddress(mac);
    ok := parsed.Ok?;
  }

  /**
   * One turn of the loop in GetOptions: the `switch` on element i, given the
   * locals so far. It reports whether the element ends the pass (the help, or
   * the exception thrown) and otherwise gives the updated locals.
   */
  method ScanElement(args: seq<string>, parsers: Parsers, i: nat, st: Settings) returns (stop: Option<ParseResult>, next: Settings)
    requires i < |args|
    ensures stop == Verdict(args, i, parsers)
    ensures stop.None? ==> next == Advance(st, args, parsers, i)
  {
    next := st;
    stop := None;
    match SwitchOf(args[i]) {
      case Some(MacSwitch) =>
        if |args| > i + 1 {
          next := next.(macAddress := Some(args[i + 1]));
          var parses := MacParses(args[i + 1]);
          if !parses {
            stop := Some(Rejected(InvalidMacFormat));
          }
        }
      case Some(HostnameSwitch) =>
        if |args| > i + 1 {
          next := next.(hostname := Some(args[i + 1]));
        }
      case Some(BroadcastSwitch) =>
        if |args| > i + 1 {
          var broadcast := parsers.tryParseAddress(args[i + 1]);
          next := next.(broadcast := broadcast);
          if broadcast.None? {
            stop := Some(Rejected(InvalidBroadcastFormat));
          }
        }
      case Some(PortSwitch) =>
        if |args| > i + 1 {
          var n := parsers.tryParseInt(args[i + 1]);
          if n.None? || n.value <= 0 || n.value > 65535 {
            stop := Some(Rejected(InvalidPort));
          } else {
            next := next.(port := n.value);
          }
        }
      case Some(TimeoutSwitch) =>
        if |args| > i + 1 {
          var n := parsers.tryParseInt(args[i + 1]);
          if n.None? || n.value <= 0 {
            stop := Some(Rejected(InvalidTimeout));
          } else {
            next := next.(timeout := n.value);
          }
        }
      case Some(NoWaitSwitch) =>
        next := next.(wait := false);
      case Some(SilentSwitch) =>
        next := next.(silent := true);
      case Some(HelpSwitch) =>
        stop := Some(HelpRequested);
      case None =>
    }
  }

  /** GetOptions: the pass over the arguments, then the MAC check and the options built from the locals. */
  method GetOptions(args: seq<string>, parsers: Parsers) returns (r: ParseResult)
    ensures r == ParseArguments(args, parsers)
  {
    var locals := Settings(None, None, None, DefaultPort, DefaultTimeout, true, false);
    for i := 0 to |args|
      invariant ClearBefore(args, parsers, i)
      invariant locals == SettingsAfter(args, parsers, i)
    {
      var stop, next := ScanElement(args, parsers, i, locals);
      if stop.Some? {
        ParseArgumentsStopsAt(args, parsers, i);
        return stop.value;
      }
      SettingsAdvance(args, parsers, i);
      locals := next;
    }
    ParseArgumentsFinishes(args, parsers);
    if locals.macAddress.None? {
      return Rejected(MacRequired);
    }
    return Parsed(ProgramOptions(locals.macAddress.value, locals.hostname, locals.broadcast,
                                 locals.port, locals.timeout, locals.wait, locals.silent));
  }

  /** A pass that nothing stops: every element is cleared. */
  lemma ParsedMeansCleared(args: seq<string>, parsers: Parsers)
    requires !ParseArguments(args, parsers).HelpRequested? && !ParseArguments(args, parsers).Rejected?
    ensures ClearBefore(args, parsers, |args|)
    ensures ParseArguments(args, parsers) == Finish(SettingsAfter(args, parsers, |args|))
  {
    if FirstStop(args, parsers, 0).Some? {
      var k := FirstStop(args, parsers, 0).value;
      ValueVerdictKinds(args, parsers, k);
    }
  }

  /** A stop is only ever the help or a rejection. */
  lemma ValueVerdictKinds(args: seq<string>, parsers: Parsers, j: nat)
    requires j < |args|
    ensures Verdict(args, j, parsers).Some? ==> !Verdict(args, j, parsers).value.Parsed?
  {
  }

  /**
   * Options come out only when every value read was accepted: each MAC
   * parses, each broadcast address parses, each port is in 1..65535 and each
   * timeout is positive, wherever the switch occurs and not only at its last
   * occurrence.
   */
  lemma ParsedMeansEveryValueAccepted(args: seq<string>, parsers: Parsers, j: nat)
    requires ParseArguments(args, parsers).Parsed? && j + 1 < |args|
    ensures Names(MacSwitch, args[j]) ==> ValidMac(args[j + 1])
    ensures Names(BroadcastSwitch, args[j]) ==> parsers.tryParseAddress(args[j + 1]).Some?
    ensures Names(PortSwitch, args[j]) ==> AcceptablePort(parsers.tryParseInt(args[j + 1]))
    ensures Names(TimeoutSwitch, args[j]) ==> AcceptableTimeout(parsers.tryParseInt(args[j + 1]))
  {
    ParsedMeansCleared(args, parsers);
    ClearedValueAccepted(args, parsers, |args|, j);
    ClearedMacAccepted(args, parsers, |args|, j);
  }

  /** Options come out only when no element, value or not, spells `--help` or `-h`. */
  lemma ParsedMeansNoHelp(args: seq<string>, parsers: Parsers)
    requires ParseArguments(args, parsers).Parsed?
    ensures forall j :: 0 <= j < |args| ==> !Names(HelpSwitch, args[j])
  {
    ParsedMeansCleared(args, parsers);
    forall j | 0 <= j < |args| ensures !Names(HelpSwitch, args[j]) {
      assert Verdict(args, j, parsers).None?;
    }
  }

  /** The options that come out hold a valid MAC, a port in 1..65535 and a positive timeout. */
  lemma ParsedOptionsAreValid(args: seq<string>, parsers: Parsers)
    requires ParseArguments(args, parsers).Parsed?
    ensures ValidMac(ParseArguments(args, parsers).options.macAddress)
    ensures 0 < ParseArguments(args, parsers).options.port <= 65535
    ensures 0 < ParseArguments(args, parsers).options.timeout
  {
    ParsedMeansCleared(args, parsers);
    SettingsMacParses(args, parsers);
    SettingsNumbersInRange(args, parsers);
  }

  /** The locals after a pass that nothing stops hold a MAC that parses, if they hold one. */
  lemma SettingsMacParses(args: seq<string>, parsers: Parsers)
    requires ClearBefore(args, parsers, |args|)
    ensures LastValue(args, MacSwitch, |args|).Some? ==> ValidMac(LastValue(args, MacSwitch, |args|).value)
  {
    LastValueAtIsLast(args, MacSwitch, |args|);
    if LastValueAt(args, MacSwitch, |args|).Some? {
      ClearedMacAccepted(args, parsers, |args|, LastValueAt(args, MacSwitch, |args|).value);
    }
  }

  /** The locals after a pass that nothing stops hold a port in 1..65535 and a positive timeout. */
  lemma SettingsNumbersInRange(args: seq<string>, parsers: Parsers)
    requires ClearBefore(args, parsers, |args|)
    ensures 0 < NumberAfter(args, parsers, PortSwitch, DefaultPort, |args|) <= 65535
    ensures 0 < NumberAfter(args, parsers, TimeoutSwitch, DefaultTimeout, |args|)
  {
    var hi := |args|;
    LastValueAtIsLast(args, PortSwitch, hi);
    if LastValueAt(args, PortSwitch, hi).Some? {
      ClearedValueAccepted(args, parsers, hi, LastValueAt(args, PortSwitch, hi).value);
    }
    LastValueAtIsLast(args, TimeoutSwitch, hi);
    if LastValueAt(args, TimeoutSwitch, hi).Some? {
      ClearedValueAccepted(args, parsers, hi, LastValueAt(args, TimeoutSwitch, hi).value);
    }
  }

  /**
   * The missing-MAC error comes exactly when no element stops the pass and
   * no `--mac_address` or `-m` is followed by an element.
   */
  lemma MacRequiredExactly(args: seq<string>, parsers: Parsers)
    ensures ParseArguments(args, parsers) == Rejected(MacRequired) <==>
      ClearBefore(args, parsers, |args|) && forall j :: 0 <= j < |args| - 1 ==> !Names(MacSwitch, args[j])
  {
    LastValueAtIsLast(args, MacSwitch, |args|);
    if ClearBefore(args, parsers, |args|) {
      ParseArgumentsFinishes(args, parsers);
    }
  }

  /**
   * Repetition overrides: when the j-th element takes a value and no later
   * element spells the same switch with a value after it, the option holds
   * the value read at j.
   */
  lemma LastOccurrenceWins(args: seq<string>, parsers: Parsers, s: Switch, j: nat)
    requires ParseArguments(args, parsers).Parsed?
    requires j + 1 < |args| && Names(s, args[j])
    requires forall k :: j < k < |args| - 1 ==> !Names(s, args[k])
    ensures var o := ParseArguments(args, parsers).options;
      && (s == MacSwitch ==> o.macAddress == args[j + 1])
      && (s == HostnameSwitch ==> o.hostname == Some(args[j + 1]))
      && (s == BroadcastSwitch ==> o.broadcast == parsers.tryParseAddress(args[j + 1]))
      && (s == PortSwitch ==> Some(o.port) == parsers.tryParseInt(args[j + 1]))
      && (s == TimeoutSwitch ==> Some(o.timeout) == parsers.tryParseInt(args[j + 1]))
  {
    ParsedMeansCleared(args, parsers);
    LastOccurrenceSetting(args, parsers, s, j);
  }

  /** The locals after a pass that nothing stops hold the values read at the last occurrences. */
  lemma LastOccurrenceSetting(args: seq<string>, parsers: Parsers, s: Switch, j: nat)
    requires ClearBefore(args, parsers, |args|)
    requires j + 1 < |args| && Names(s, args[j])
    requires forall k :: j < k < |args| - 1 ==> !Names(s, args[k])
    ensures var st := SettingsAfter(args, parsers, |args|);
      && (s == MacSwitch ==> st.macAddress == Some(args[j + 1]))
      && (s == HostnameSwitch ==> st.hostname == Some(args[j + 1]))
      && (s == BroadcastSwitch ==> st.broadcast == parsers.tryParseAddress(args[j + 1]))
      && (s == PortSwitch ==> Some(st.port) == parsers.tryParseInt(args[j + 1]))
      && (s == TimeoutSwitch ==> Some(st.timeout) == parsers.tryParseInt(args[j + 1]))
  {
    ClearedValueAccepted(args, parsers, |args|, j);
    LastValueAtUnique(args, s, j);
  }

  /**
   * Flags are set by any occurrence: the options wait exactly when no element
   * spells `--no-wait`, and are silent exactly when some element spells
   * `--silent`, including an element that was also read as a value.
   */
  lemma FlagsFromAnyOccurrence(args: seq<string>, parsers: Parsers)
    requires ParseArguments(args, parsers).Parsed?
    ensures ParseArguments(args, parsers).options.wait <==> forall j :: 0 <= j < |args| ==> !Names(NoWaitSwitch, args[j])
    ensures ParseArguments(args, parsers).options.silent <==> exists j :: 0 <= j < |args| && Names(SilentSwitch, args[j])
  {
    ParsedMeansCleared(args, parsers);
  }

  /**
   * A switch that is absent, or only ever last so that it reads nothing,
   * leaves its initial value: no host, no broadcast address, port 9, 300
   * seconds, as in `new ProgramOptions()`.
   */
  lemma AbsentValuesKeepDefaults(args: seq<string>, parsers: Parsers)
    requires ParseArguments(args, parsers).Parsed?
    ensures var o := ParseArguments(args, parsers).options;
      && ((forall j :: 0 <= j < |args| - 1 ==> !Names(HostnameSwitch, args[j])) ==> o.hostname == DefaultOptions().hostname)
      && ((forall j :: 0 <= j < |args| - 1 ==> !Names(BroadcastSwitch, args[j])) ==> o.broadcast == DefaultOptions().broadcast)
      && ((forall j :: 0 <= j < |args| - 1 ==> !Names(PortSwitch, args[j])) ==> o.port == DefaultOptions().port)
      && ((forall j :: 0 <= j < |args| - 1 ==> !Names(TimeoutSwitch, args[j])) ==> o.timeout == DefaultOptions().timeout)
  {
    ParsedMeansCleared(args, parsers);
    LastValueAtAbsent(args, HostnameSwitch);
    LastValueAtAbsent(args, BroadcastSwitch);
    LastValueAtAbsent(args, PortSwitch);
    LastValueAtAbsent(args, TimeoutSwitch);
  }

  // ---------------------------------------------------------------------------
  // Unknown elements and switches without a value
  // ---------------------------------------------------------------------------

  /** Positions of a list keep their LastValueAt when more elements follow. */
  lemma {:induction false} LastValueAtExtend(args: seq<string>, t: seq<string>, s: Switch, hi: nat)
    requires hi < |args|
    ensures LastValueAt(args + t, s, hi) == LastValueAt(args, s, hi)
    decreases hi
  {
    if hi > 0 {
      assert (args + t)[hi - 1] == args[hi - 1];
      LastValueAtExtend(args, t, s, hi - 1);
    }
  }

  /** An element that spells a switch reading a value. */
  predicate ReadsNext(a: string) {
    SwitchOf(a).Some? && TakesValue(SwitchOf(a).value)
  }

  /** A position past the insertion point `n` moves one place on; one before it stays. */
  function ShiftPast(p: Option<nat>, n: nat): Option<nat> {
    match p
    case Some(j) => Some(if j < n then j else j + 1)
    case None => None
  }

  /** An element that reads no value stops the pass only as `--help`. */
  lemma NonReaderVerdict(args: seq<string>, j: nat, parsers: Parsers)
    requires j < |args| && !ReadsNext(args[j])
    ensures Verdict(args, j, parsers) == if Names(HelpSwitch, args[j]) then Some(HelpRequested) else None
  {
  }

  /**
   * Just past an element that is no switch, put after `a`, the last
   * occurrence of `s` is the one in `a + b` up to the end of `a`, provided
   * the last element of `a` does not spell `s`.
   */
  lemma LastValueAtInsertion(a: seq<string>, x: string, b: seq<string>, s: Switch)
    requires SwitchOf(x).None?
    requires a == [] || !Names(s, a[|a| - 1])
    ensures LastValueAt(a + [x] + b, s, |a| + 1) == ShiftPast(LastValueAt(a + b, s, |a|), |a|)
  {
    var c := a + [x] + b;
    var n := |a|;
    assert c[n] == x;
    if n > 0 {
      assert c == a + ([x] + b);
      assert c[n - 1] == a[n - 1] == (a + b)[n - 1];
      LastValueAtExtend(a, [x] + b, s, n - 1);
      LastValueAtExtend(a, b, s, n - 1);
      LastValueAtIsLast(a, s, n - 1);
    }
  }

  /**
   * With an element that is no switch put between `a` and `b`, the last
   * occurrence of `s` before a position past the insertion is the same
   * element, one place on if it lies in `b`; provided the last element of
   * `a` does not spell `s`.
   */
  lemma {:induction false} LastValueAtInsert(a: seq<string>, x: string, b: seq<string>, s: Switch, hi: nat)
    requires SwitchOf(x).None?
    requires a == [] || !Names(s, a[|a| - 1])
    requires |a| <= hi <= |a| + |b|
    ensures LastValueAt(a + [x] + b, s, hi + 1) == ShiftPast(LastValueAt(a + b, s, hi), |a|)
    decreases hi
  {
    if hi == |a| {
      LastValueAtInsertion(a, x, b, s);
    } else {
      LastValueAtInsert(a, x, b, s, hi - 1);
      assert (a + [x] + b)[hi] == (a + b)[hi - 1];
    }
  }

  /**
   * An element that is no switch, put between `a` and `b`, has no verdict and
   * moves the verdicts of `b` one place on without changing them or those of
   * `a`, when the last element of `a` does not read it.
   */
  lemma VerdictInsert(a: seq<string>, x: string, b: seq<string>, parsers: Parsers)
    requires SwitchOf(x).None?
    requires a == [] || !ReadsNext(a[|a| - 1])
    ensures Verdict(a + [x] + b, |a|, parsers).None?
    ensures forall j :: 0 <= j < |a| ==> Verdict(a + [x] + b, j, parsers) == Verdict(a + b, j, parsers)
    ensures forall j :: |a| <= j < |a| + |b| ==> Verdict(a + [x] + b, j + 1, parsers) == Verdict(a + b, j, parsers)
  {
    var c := a + [x] + b;
    var d := a + b;
    var n := |a|;
    assert c[n] == x;
    forall j | 0 <= j < n ensures Verdict(c, j, parsers) == Verdict(d, j, parsers) {
      assert c[j] == d[j];
      if j + 1 < n {
        assert c[j + 1] == d[j + 1];
      } else {
        NonReaderVerdict(c, j, parsers);
        NonReaderVerdict(d, j, parsers);
      }
    }
    forall j | n <= j < n + |b| ensures Verdict(c, j + 1, parsers) == Verdict(d, j, parsers) {
      assert c[j + 1] == d[j];
      if j + 1 < |d| {
        assert c[j + 2] == d[j + 1];
      }
    }
  }

  /** Nothing stops the pass over `a + [x] + b` before the place the first `k` elements of `a + b` have moved to. */
  lemma ClearInsert(a: seq<string>, x: string, b: seq<string>, parsers: Parsers, k: nat)
    requires SwitchOf(x).None?
    requires a == [] || !ReadsNext(a[|a| - 1])
    requires k <= |a| + |b| && ClearBefore(a + b, parsers, k)
    ensures ClearBefore(a + [x] + b, parsers, if k < |a| then k else k + 1)
  {
    var c := a + [x] + b;
    var d := a + b;
    var n := |a|;
    VerdictInsert(a, x, b, parsers);
    forall j | 0 <= j < (if k < n then k else k + 1) ensures Verdict(c, j, parsers).None? {
      if j > n {
        assert Verdict(c, (j - 1) + 1, parsers) == Verdict(d, j - 1, parsers);
      }
    }
  }

  /**
   * An element that is no switch, put anywhere a switch before it would not
   * read it as a value, is ignored: the result, options, help or error, is
   * that of the list without it.
   */
  lemma UnknownArgumentIgnored(a: seq<string>, x: string, b: seq<string>, parsers: Parsers)
    requires SwitchOf(x).None?
    requires a == [] || !ReadsNext(a[|a| - 1])
    ensures ParseArguments(a + [x] + b, parsers) == ParseArguments(a + b, parsers)
  {
    var c := a + [x] + b;
    var d := a + b;
    match FirstStop(d, parsers, 0) {
      case Some(k) =>
        ClearInsert(a, x, b, parsers, k);
        VerdictInsert(a, x, b, parsers);
        var k' := if k < |a| then k else k + 1;
        assert Verdict(c, k', parsers) == Verdict(d, k, parsers);
        ParseArgumentsStopsAt(c, parsers, k');
        ParseArgumentsStopsAt(d, parsers, k);
      case None =>
        ClearInsert(a, x, b, parsers, |d|);
        ParseArgumentsFinishes(c, parsers);
        ParseArgumentsFinishes(d, parsers);
        SettingsInsert(a, x, b, parsers);
    }
  }

  /** Past the insertion point, the element at i of `a + b` is at i + 1 of `a + [x] + b`. */
  lemma InsertedIndex(a: seq<string>, x: string, b: seq<string>, i: nat)
    requires |a| <= i < |a| + |b|
    ensures (a + [x] + b)[i + 1] == (a + b)[i]
  {
  }

  /**
   * When the last occurrences before and after the insertion correspond and
   * the one in `a + b` is not the last element of `a`, both lists read the
   * same value.
   */
  lemma ShiftedLastValue(a: seq<string>, x: string, b: seq<string>, s: Switch)
    requires LastValueAt(a + [x] + b, s, |a| + |b| + 1) == ShiftPast(LastValueAt(a + b, s, |a| + |b|), |a|)
    requires LastValueAt(a + b, s, |a| + |b|).Some? ==> LastValueAt(a + b, s, |a| + |b|).value + 1 != |a|
    ensures LastValueAt(a + [x] + b, s, |a| + |b| + 1).Some? <==> LastValueAt(a + b, s, |a| + |b|).Some?
    ensures LastValue(a + [x] + b, s, |a| + |b| + 1) == LastValue(a + b, s, |a| + |b|)
  {
    var c := a + [x] + b;
    var d := a + b;
    LastValueAtIsLast(d, s, |d|);
    match LastValueAt(d, s, |d|)
    case Some(j) =>
      if j < |a| {
        assert LastValue(c, s, |c|) == Some(c[j + 1]);
        assert c[j + 1] == d[j + 1];
      } else {
        assert LastValue(c, s, |c|) == Some(c[j + 2]);
        InsertedIndex(a, x, b, j + 1);
      }
    case None =>
  }

  /** The value a value-taking switch last read is the same with or without the inserted element. */
  lemma LastValueInsert(a: seq<string>, x: string, b: seq<string>, s: Switch)
    requires SwitchOf(x).None?
    requires a == [] || !Names(s, a[|a| - 1])
    ensures LastValueAt(a + [x] + b, s, |a| + |b| + 1).Some? <==> LastValueAt(a + b, s, |a| + |b|).Some?
    ensures LastValue(a + [x] + b, s, |a| + |b| + 1) == LastValue(a + b, s, |a| + |b|)
  {
    LastValueAtInsert(a, x, b, s, |a| + |b|);
    LastValueAtIsLast(a + b, s, |a| + |b|);
    if a != [] {
      assert (a + b)[|a| - 1] == a[|a| - 1];
    }
    ShiftedLastValue(a, x, b, s);
  }

  /** Whether a switch occurs is the same with or without an inserted element that is no switch. */
  lemma MentionedInsert(a: seq<string>, x: string, b: seq<string>, s: Switch)
    requires SwitchOf(x).None?
    ensures Mentioned(a + [x] + b, s, |a| + |b| + 1) <==> Mentioned(a + b, s, |a| + |b|)
  {
    var c := a + [x] + b;
    var d := a + b;
    var n := |a|;
    var m := |d|;
    assert c[n] == x;
    if Mentioned(c, s, m + 1) {
      var j :| 0 <= j < m + 1 && Names(s, c[j]);
      if j < n {
        assert c[j] == d[j];
        assert Names(s, d[j]);
      } else {
        InsertedIndex(a, x, b, j - 1);
        assert Names(s, d[j - 1]);
      }
    }
    if Mentioned(d, s, m) {
      var j :| 0 <= j < m && Names(s, d[j]);
      if j < n {
        assert c[j] == d[j];
        assert Names(s, c[j]);
      } else {
        InsertedIndex(a, x, b, j);
        assert Names(s, c[j + 1]);
      }
    }
  }

  /** The locals after `a + [x] + b` and after `a + b` agree when x is no switch, is not read by `a`, and nothing stops either pass. */
  lemma SettingsInsert(a: seq<string>, x: string, b: seq<string>, parsers: Parsers)
    requires SwitchOf(x).None?
    requires a == [] || !ReadsNext(a[|a| - 1])
    requires ClearBefore(a + [x] + b, parsers, |a| + |b| + 1) && ClearBefore(a + b, parsers, |a| + |b|)
    ensures SettingsAfter(a + [x] + b, parsers, |a| + |b| + 1) == SettingsAfter(a + b, parsers, |a| + |b|)
  {
    var c := a + [x] + b;
    var d := a + b;
    var m := |d|;
    LastValueInsert(a, x, b, MacSwitch);
    LastValueInsert(a, x, b, HostnameSwitch);
    LastValueInsert(a, x, b, BroadcastSwitch);
    LastValueInsert(a, x, b, PortSwitch);
    LastValueInsert(a, x, b, TimeoutSwitch);
    assert NumberAfter(c, parsers, PortSwitch, DefaultPort, m + 1) == NumberAfter(d, parsers, PortSwitch, DefaultPort, m);
    assert NumberAfter(c, parsers, TimeoutSwitch, DefaultTimeout, m + 1) == NumberAfter(d, parsers, TimeoutSwitch, DefaultTimeout, m);
    MentionedInsert(a, x, b, NoWaitSwitch);
    MentionedInsert(a, x, b, SilentSwitch);
  }

  /**
   * A value-taking switch in the last position reads nothing, so appending
   * one leaves every setting as it was, provided the element before it does
   * not itself read it as a value.
   */
  lemma TrailingSwitchReadsNothing(args: seq<string>, x: string, parsers: Parsers)
    requires ReadsNext(x)
    requires |args| == 0 || !ReadsNext(args[|args| - 1])
    ensures ParseArguments(args + [x], parsers) == ParseArguments(args, parsers)
  {
    var c := args + [x];
    var n := |args|;
    forall j | 0 <= j < n ensures Verdict(c, j, parsers) == Verdict(args, j, parsers) {
      assert c[j] == args[j];
      if j + 1 < n {
        assert c[j + 1] == args[j + 1];
      }
    }
    assert Verdict(c, n, parsers).None? by {
      assert c[n] == x;
    }
    match FirstStop(args, parsers, 0) {
      case Some(k) =>
        ParseArgumentsStopsAt(c, parsers, k);
        ParseArgumentsStopsAt(args, parsers, k);
      case None =>
        ParseArgumentsFinishes(c, parsers);
        ParseArgumentsFinishes(args, parsers);
        SettingsExtend(args, x, parsers);
    }
  }

  /** The locals after `args + [x]` and after `args` agree when x reads a value it does not have. */
  lemma SettingsExtend(args: seq<string>, x: string, parsers: Parsers)
    requires ReadsNext(x)
    requires |args| == 0 || !ReadsNext(args[|args| - 1])
    requires ClearBefore(args + [x], parsers, |args| + 1) && ClearBefore(args, parsers, |args|)
    ensures SettingsAfter(args + [x], parsers, |args| + 1) == SettingsAfter(args, parsers, |args|)
  {
    var c := args + [x];
    var n := |args|;
    forall s | TakesValue(s) ensures LastValueAt(c, s, n + 1) == LastValueAt(args, s, n) {
      if n > 0 {
        assert c[n - 1] == args[n - 1];
        LastValueAtExtend(args, [x], s, n - 1);
      }
    }
    forall s | TakesValue(s) ensures LastValue(c, s, n + 1) == LastValue(args, s, n) {
      LastValueAtIsLast(args, s, n);
      if LastValueAt(args, s, n).Some? {
        assert c[LastValueAt(args, s, n).value + 1] == args[LastValueAt(args, s, n).value + 1];
      }
    }
    forall s | s == PortSwitch || s == TimeoutSwitch
      ensures NumberAfter(c, parsers, s, DefaultPort, n + 1) == NumberAfter(args, parsers, s, DefaultPort, n)
      ensures NumberAfter(c, parsers, s, DefaultTimeout, n + 1) == NumberAfter(args, parsers, s, DefaultTimeout, n)
    {
      LastValueAtIsLast(args, s, n);
      if LastValueAt(args, s, n).Some? {
        assert c[LastValueAt(args, s, n).value + 1] == args[LastValueAt(args, s, n).value + 1];
      }
    }
    forall s | !TakesValue(s) ensures Mentioned(c, s, n + 1) <==> Mentioned(args, s, n) {
      MentionedStep(c, s, n);
      assert c[n] == x;
      if Mentioned(c, s, n) {
        var j :| 0 <= j < n && Names(s, c[j]);
        assert c[j] == args[j];
      }
      if Mentioned(args, s, n) {
        var j :| 0 <= j < n && Names(s, args[j]);
        assert c[j] == args[j];
      }
    }
  }

  // ---------------------------------------------------------------------------
  // Worked argument lists
  // ---------------------------------------------------------------------------

  /** A valid MAC contains ':' and so is not one of the switch labels. */
  lemma ValidMacIsNoSwitch(mac: string)
    requires ValidMac(mac)
    ensures SwitchOf(mac).None?
  {
    if mac in SwitchLabels {
      LabelsHaveNoColon();
      SplitWithoutSeparator(mac, ':');
    }
  }

  /** No switch label contains ':'. */
  lemma LabelsHaveNoColon()
    ensures forall a :: a in SwitchLabels ==> ':' !in a
  {
  }

  /** `-m <mac>` alone gives the defaults of `new ProgramOptions()` with that MAC. */
  lemma MacAloneGivesDefaults(mac: string, parsers: Parsers)
    requires ValidMac(mac)
    ensures ParseArguments(["-m", mac], parsers) == Parsed(DefaultOptions().(macAddress := mac))
  {
    var args := ["-m", mac];
    ValidMacIsNoSwitch(mac);
    assert SwitchOf(args[0]) == Some(MacSwitch);
    assert Verdict(args, 0, parsers).None?;
    assert Verdict(args, 1, parsers).None?;
    assert ClearBefore(args, parsers, 2);
    ParseArgumentsFinishes(args, parsers);
    LastValueStep(args, MacSwitch, 0);
    LastValueStep(args, MacSwitch, 1);
    forall s | s != MacSwitch ensures LastValueAt(args, s, 2).None? {
      LastValueStep(args, s, 0);
      LastValueStep(args, s, 1);
    }
    forall s | s == NoWaitSwitch || s == SilentSwitch ensures !Mentioned(args, s, 2) {
      MentionedStep(args, s, 0);
      MentionedStep(args, s, 1);
    }
  }

  /**
   * A value is examined again as a switch: in `-H -n -m <mac>` the host name
   * is "-n", and "-n" also turns waiting off.
   */
  lemma ConsumedValueRescanned(mac: string, parsers: Parsers)
    requires ValidMac(mac)
    ensures ParseArguments(["-H", "-n", "-m", mac], parsers) ==
      Parsed(ProgramOptions(mac, Some("-n"), None, DefaultPort, DefaultTimeout, false, false))
  {
    var args := ["-H", "-n", "-m", mac];
    ValidMacIsNoSwitch(mac);
    assert SwitchOf(args[0]) == Some(HostnameSwitch);
    assert SwitchOf(args[1]) == Some(NoWaitSwitch);
    assert SwitchOf(args[2]) == Some(MacSwitch);
    assert forall j :: 0 <= j < 4 ==> Verdict(args, j, parsers).None?;
    ParseArgumentsFinishes(args, parsers);
    forall s ensures LastValueAt(args, s, 4) == LastValueAt(args, s, 3) {
      LastValueStep(args, s, 3);
    }
    LastValueStep(args, MacSwitch, 2);
    LastValueStep(args, HostnameSwitch, 2);
    LastValueStep(args, HostnameSwitch, 1);
    LastValueStep(args, HostnameSwitch, 0);
    forall s | s in {BroadcastSwitch, PortSwitch, TimeoutSwitch} ensures LastValueAt(args, s, 3).None? {
      LastValueStep(args, s, 0);
      LastValueStep(args, s, 1);
      LastValueStep(args, s, 2);
    }
    MentionedStep(args, NoWaitSwitch, 1);
    MentionedStep(args, NoWaitSwitch, 2);
    MentionedStep(args, NoWaitSwitch, 3);
    forall i | 0 <= i < 4 ensures Mentioned(args, SilentSwitch, i + 1) == Mentioned(args, SilentSwitch, i) {
      MentionedStep(args, SilentSwitch, i);
    }
    assert !Mentioned(args, SilentSwitch, 0);
  }

  /** A host name that reads "-h" is still the help switch: `-H -h -m <mac>` shows the help. */
  lemma HostnameValueRescannedAsHelp(mac: string, parsers: Parsers)
    ensures ParseArguments(["-H", "-h", "-m", mac], parsers) == HelpRequested
  {
    var args := ["-H", "-h", "-m", mac];
    assert SwitchOf(args[0]) == Some(HostnameSwitch);
    assert SwitchOf(args[1]) == Some(HelpSwitch);
    assert Verdict(args, 0, parsers).None?;
    ParseArgumentsStopsAt(args, parsers, 1);
  }

  /** A value is checked before it is examined as a switch: `-m -h` fails on the MAC, not with the help. */
  lemma MacValueCheckedFirst(parsers: Parsers)
    ensures ParseArguments(["-m", "-h"], parsers) == Rejected(InvalidMacFormat)
  {
    var args := ["-m", "-h"];
    SplitWithoutSeparator("-h", ':');
    assert SwitchOf(args[0]) == Some(MacSwitch);
    ParseArgumentsStopsAt(args, parsers, 0);
  }

  /** A port outside 1..65535 is refused even after a valid MAC: `-m <mac> -p <v>`. */
  lemma PortOutOfRangeRejected(mac: string, v: string, parsers: Parsers)
    requires ValidMac(mac)
    requires parsers.tryParseInt(v).Some? && !(0 < parsers.tryParseInt(v).value <= 65535)
    ensures ParseArguments(["-m", mac, "-p", v], parsers) == Rejected(InvalidPort)
  {
    var args := ["-m", mac, "-p", v];
    ValidMacIsNoSwitch(mac);
    assert SwitchOf(args[0]) == Some(MacSwitch);
    assert SwitchOf(args[2]) == Some(PortSwitch);
    assert Verdict(args, 0, parsers).None?;
    assert Verdict(args, 1, parsers).None?;
    ParseArgumentsStopsAt(args, parsers, 2);
  }

  /** A timeout of zero or less is refused: `-m <mac> -t <v>`. */
  lemma NonPositiveTimeoutRejected(mac: string, v: string, parsers: Parsers)
    requires ValidMac(mac)
    requires parsers.tryParseInt(v).Some? && parsers.tryParseInt(v).value <= 0
    ensures ParseArguments(["-m", mac, "-t", v], parsers) == Rejected(InvalidTimeout)
  {
    var args := ["-m", mac, "-t", v];
    ValidMacIsNoSwitch(mac);
    assert SwitchOf(args[0]) == Some(MacSwitch);
    assert SwitchOf(args[2]) == Some(TimeoutSwitch);
    assert Verdict(args, 0, parsers).None?;
    assert Verdict(args, 1, parsers).None?;
    ParseArgumentsStopsAt(args, parsers, 2);
  }
}
