/**
 * `Program.Main`: parse the options, skip everything when the host already
 * answers a ping, otherwise resolve the broadcast address, send the magic
 * packet and, when a host name is known and waiting is on, ping it until it
 * answers or the timeout has passed. Each way out has its exit code.
 *
 * The pings, the clock, the network tables and the socket are inputs: a World
 * holds the answer of the first ping, whether the socket works, and the trace
 * of the polling pings, each with the seconds elapsed since polling began.
 */
module Wake {
  import opened Wrappers
  import opened Bytes
  import opened MacAddress
  import opened NetworkInfo
  import opened MagicPacket
  import opened Options
  import opened CommandLine

  const ExitCodeSuccess: int := 0
  const ExitCodeError: int := 1
  const ExitCodeAlreadyUp: int := 2
  const ExitCodeTimeout: int := 3

  /** What `SendPingAsync` produced: a reply with a status, or an exception. */
  datatype PingReply = Replied(success: bool) | PingThrew

  /** `IsHostAliveAsync`: the reply status is Success; an exception counts as not alive. */
  function IsHostAlive(reply: PingReply): (alive: bool)
    ensures alive <==> reply == Replied(true)
  {
    match reply
    case Replied(success) => success
    case PingThrew => false
  }

  /** One ping of the polling loop, with `(DateTime.Now - startTime).TotalSeconds` read after it. */
  datatype Probe = Probe(reply: PingReply, elapsed: real)

  /** Everything Main learns from outside the process. */
  datatype World = World(
    parsers: Parsers,       // IPAddress.TryParse and int.TryParse
    network: Network,       // the DNS address list and the interface table
    precheck: PingReply,    // the ping before the packet is sent
    transportOk: bool,      // whether the UdpClient connects and sends
    probes: seq<Probe>)     // the pings of the polling loop, in order

  /** The exception that the catch block of Main reports. */
  datatype Failure =
    | BadArguments(reason: OptionError)       // ArgumentException from GetOptions
    | NoBroadcast(cause: BroadcastError)      // from GetBroadcastAddress at line 200
    | SendFailed(exception: MagicPacketException)

  /** How a run ends. StillPolling: the probe trace ended while Main was still waiting. */
  datatype Outcome =
    | HelpShown              // Environment.Exit(0) inside GetOptions
    | Failed(failure: Failure)
    | AlreadyUp
    | Sent                   // packet sent, no waiting
    | CameUp(seconds: int)   // Math.Floor of the elapsed seconds
    | TimedOut
    | StillPolling

  /** The exit code of every outcome that ends the process. */
  function ExitCode(o: Outcome): (code: int)
    requires !o.StillPolling?
    ensures code == ExitCodeSuccess <==> o.HelpShown? || o.Sent? || o.CameUp?
    ensures code == ExitCodeError <==> o.Failed?
    ensures code == ExitCodeAlreadyUp <==> o.AlreadyUp?
    ensures code == ExitCodeTimeout <==> o.TimedOut?
  {
    match o
    case HelpShown => ExitCodeSuccess
    case Failed(_) => ExitCodeError
    case AlreadyUp => ExitCodeAlreadyUp
    case Sent => ExitCodeSuccess
    case CameUp(_) => ExitCodeSuccess
    case TimedOut => ExitCodeTimeout
  }

  /** How a run ends and the datagram it sent, if any. */
  datatype Report = Report(outcome: Outcome, sent: Option<Datagram>)

  // ---------------------------------------------------------------------------
  // The polling loop
  // ---------------------------------------------------------------------------

  /** A probe that ends the loop: the host answered, or the time is past the timeout. */
  predicate Decisive(p: Probe, timeout: int32) {
    IsHostAlive(p.reply) || p.elapsed > timeout as real
  }

  /** The loop `while (true)` over the probes: the first decisive probe decides. */
  function Poll(probes: seq<Probe>, timeout: int32): Outcome
    decreases |probes|
  {
    if |probes| == 0 then StillPolling
    else if IsHostAlive(probes[0].reply) then CameUp(probes[0].elapsed.Floor)
    else if probes[0].elapsed > timeout as real then TimedOut
    else Poll(probes[1..], timeout)
  }

  /** The outcome a decisive probe gives. */
  function Decision(p: Probe): Outcome {
    if IsHostAlive(p.reply) then CameUp(p.elapsed.Floor) else TimedOut
  }

  /** Every probe before k failed within the timeout. */
  predicate QuietBefore(probes: seq<Probe>, timeout: int32, k: nat)
    requires k <= |probes|
  {
    forall i :: 0 <= i < k ==> !Decisive(probes[i], timeout)
  }

  /**
   * The loop ends at the first decisive probe with that probe's outcome, and
   * is still going exactly when no probe is decisive.
   */
  lemma {:induction false} PollFirstDecisive(probes: seq<Probe>, timeout: int32)
    ensures Poll(probes, timeout) == StillPolling <==> QuietBefore(probes, timeout, |probes|)
    ensures Poll(probes, timeout) != StillPolling ==>
      exists k :: 0 <= k < |probes| && QuietBefore(probes, timeout, k) && Decisive(probes[k], timeout)
        && Poll(probes, timeout) == Decision(probes[k])
    decreases |probes|
  {
    if |probes| > 0 && !Decisive(probes[0], timeout) {
      var rest := probes[1..];
      PollFirstDecisive(rest, timeout);
      assert forall i :: 0 <= i < |rest| ==> rest[i] == probes[i + 1];
      if Poll(probes, timeout) != StillPolling {
        var k :| 0 <= k < |rest| && QuietBefore(rest, timeout, k) && Decisive(rest[k], timeout)
          && Poll(rest, timeout) == Decision(rest[k]);
        assert QuietBefore(probes, timeout, k + 1);
      }
      if QuietBefore(probes, timeout, |probes|) {
        assert QuietBefore(rest, timeout, |rest|);
      }
    } else if |probes| > 0 {
      assert QuietBefore(probes, timeout, 0);
    }
  }

  /** Exit code 3 only after a failed probe strictly past the timeout, every earlier probe having failed in time. */
  lemma PollTimedOut(probes: seq<Probe>, timeout: int32)
    ensures Poll(probes, timeout) == TimedOut <==>
      exists k :: 0 <= k < |probes| && QuietBefore(probes, timeout, k)
        && !IsHostAlive(probes[k].reply) && probes[k].elapsed > timeout as real
  {
    PollFirstDecisive(probes, timeout);
    if k :| 0 <= k < |probes| && QuietBefore(probes, timeout, k) && !IsHostAlive(probes[k].reply) && probes[k].elapsed > timeout as real {
      PollDecidedAt(probes, timeout, k);
    }
  }

  /** The host is reported up at the first probe it answers, provided every earlier probe failed in time. */
  lemma PollCameUp(probes: seq<Probe>, timeout: int32, seconds: int)
    ensures Poll(probes, timeout) == CameUp(seconds) <==>
      exists k :: 0 <= k < |probes| && QuietBefore(probes, timeout, k)
        && IsHostAlive(probes[k].reply) && probes[k].elapsed.Floor == seconds
  {
    PollFirstDecisive(probes, timeout);
    if k :| 0 <= k < |probes| && QuietBefore(probes, timeout, k) && IsHostAlive(probes[k].reply) && probes[k].elapsed.Floor == seconds {
      PollDecidedAt(probes, timeout, k);
    }
  }

  /** A decisive probe after quiet ones decides the loop. */
  lemma {:induction false} PollDecidedAt(probes: seq<Probe>, timeout: int32, k: nat)
    requires k < |probes| && QuietBefore(probes, timeout, k) && Decisive(probes[k], timeout)
    ensures Poll(probes, timeout) == Decision(probes[k])
    decreases k
  {
    if k > 0 {
      var rest := probes[1..];
      assert forall i :: 0 <= i < |rest| ==> rest[i] == probes[i + 1];
      assert QuietBefore(rest, timeout, k - 1) by {
        forall i | 0 <= i < k - 1 ensures !Decisive(rest[i], timeout) {
          assert rest[i] == probes[i + 1];
        }
      }
      PollDecidedAt(rest, timeout, k - 1);
    }
  }

  /**
   * The answer is not compared with the timeout: a host that answers only
   * after the timeout, at a probe following in-time failures, is reported up
   * with the longer time and exit code 0.
   */
  lemma LateAnswerCountsAsUp()
    ensures Poll([Probe(PingThrew, 250.0), Probe(Replied(true), 412.7)], 300) == CameUp(412)
  {
    assert (412.7).Floor == 412;
  }

  /** The comparison is strict: a failed probe at exactly the timeout keeps the loop going. */
  lemma TimeoutIsStrict()
    ensures Poll([Probe(Replied(false), 300.0), Probe(Replied(false), 300.5)], 300) == TimedOut
    ensures Poll([Probe(Replied(false), 300.0)], 300) == StillPolling
  {
    var p := [Probe(Replied(false), 300.0), Probe(Replied(false), 300.5)];
    assert p[1..] == [Probe(Replied(false), 300.5)];
  }

  // ---------------------------------------------------------------------------
  // The whole run
  // ---------------------------------------------------------------------------

  /** The broadcast address Main ends up with: the one given, else GetBroadcastAddress(). */
  function TargetOf(o: ProgramOptions, network: Network): Result<Address, BroadcastError> {
    if o.broadcast.Some? then Ok(o.broadcast.value) else BroadcastAddress(None, network)
  }

  /** What Main does with parsed options. */
  function AfterParsing(o: ProgramOptions, world: World): Report {
    if o.hostname.Some? && IsHostAlive(world.precheck) then Report(AlreadyUp, None)
    else
      var target := TargetOf(o, world.network);
      if target.Err? then Report(Failed(NoBroadcast(target.error)), None)
      else
        match SendResult(o.macAddress, Some(target.value), o.port as int, world.network, world.transportOk)
        case Err(e) => Report(Failed(SendFailed(e)), None)
        case Ok(d) =>
          if o.hostname.Some? && o.wait then Report(Poll(world.probes, o.timeout), Some(d))
          else Report(Sent, Some(d))
  }

  /** What Main does with `args` in `world`. */
  function Behaviour(args: seq<string>, world: World): Report {
    match ParseArguments(args, world.parsers)
    case HelpRequested => Report(HelpShown, None)
    case Rejected(e) => Report(Failed(BadArguments(e)), None)
    case Parsed(o) => AfterParsing(o, world)
  }

  /** Main, with its early returns, and its polling loop over the probe trace. */
  method Run(args: seq<string>, world: World) returns (r: Report)
    ensures r == Behaviour(args, world)
  {
    var parsed := GetOptions(args, world.parsers);
    if parsed.HelpRequested? {
      return Report(HelpShown, None);
    }
    if parsed.Rejected? {
      return Report(Failed(BadArguments(parsed.error)), None);
    }
    var options := parsed.options;
    if options.hostname.Some? && IsHostAlive(world.precheck) {
      return Report(AlreadyUp, None);
    }
    if options.broadcast.None? {
      var b := GetBroadcastAddress(None, world.network);
      if b.Err? {
        return Report(Failed(NoBroadcast(b.error)), None);
      }
      options := options.(broadcast := Some(b.value));
    }
    var sent := SendMagicPacket(options.macAddress, options.broadcast, options.port as int, world.network, world.transportOk);
    if sent.Err? {
      return Report(Failed(SendFailed(sent.error)), None);
    }
    var d := sent.value;
    if options.hostname.Some? && options.wait {
      var outcome := PollHost(world.probes, options.timeout);
      return Report(outcome, Some(d));
    }
    return Report(Sent, Some(d));
  }

  /** The `while (true)` loop of Main: ping until the host answers or the time is past the timeout. */
  method PollHost(probes: seq<Probe>, timeout: int32) returns (outcome: Outcome)
    ensures outcome == Poll(probes, timeout)
  {
    var i := 0;
    while i < |probes|
      invariant i <= |probes|
      invariant Poll(probes[i..], timeout) == Poll(probes, timeout)
      decreases |probes| - i
    {
      var probe := probes[i];
      if IsHostAlive(probe.reply) {
        return CameUp(probe.elapsed.Floor);
      }
      if probe.elapsed > timeout as real {
        return TimedOut;
      }
      assert probes[i..][1..] == probes[i + 1..];
      i := i + 1;
    }
    return StillPolling;
  }

  // ---------------------------------------------------------------------------
  // Properties of the run
  // ---------------------------------------------------------------------------

  /** Parsed options never lead to the help or to an argument error, and a failure sends nothing. */
  lemma AfterParsingKinds(o: ProgramOptions, world: World)
    ensures !AfterParsing(o, world).outcome.HelpShown?
    ensures AfterParsing(o, world).outcome.Failed? ==>
      !AfterParsing(o, world).outcome.failure.BadArguments? && AfterParsing(o, world).sent.None?
  {
    PollNeverFails(world.probes, o.timeout);
  }

  /** `--help` ends the process with code 0 before anything is sent. */
  lemma HelpExactly(args: seq<string>, world: World)
    ensures Behaviour(args, world).outcome == HelpShown <==> ParseArguments(args, world.parsers) == HelpRequested
    ensures Behaviour(args, world).outcome == HelpShown ==> Behaviour(args, world).sent.None?
  {
    var p := ParseArguments(args, world.parsers);
    if p.Parsed? {
      AfterParsingKinds(p.options, world);
    }
  }

  /** Exit code 2 exactly when a host name is given and answers the first ping; nothing is sent then. */
  lemma AlreadyUpExactly(args: seq<string>, world: World)
    ensures Behaviour(args, world).outcome == AlreadyUp <==>
      ParseArguments(args, world.parsers).Parsed?
      && ParseArguments(args, world.parsers).options.hostname.Some?
      && IsHostAlive(world.precheck)
    ensures Behaviour(args, world).outcome == AlreadyUp ==> Behaviour(args, world).sent.None?
  {
    var p := ParseArguments(args, world.parsers);
    if p.Parsed? {
      AfterParsingUp(p.options, world);
    }
  }

  /** For parsed options: the run stops before sending exactly when the host answers the first ping. */
  lemma AfterParsingUp(o: ProgramOptions, world: World)
    ensures AfterParsing(o, world).outcome == AlreadyUp <==> o.hostname.Some? && IsHostAlive(world.precheck)
    ensures AfterParsing(o, world).outcome == AlreadyUp ==> AfterParsing(o, world).sent.None?
  {
    PollNeverFails(world.probes, o.timeout);
  }

  /** Exit code 1 comes from the options, the broadcast address or the send, and nothing is sent then. */
  lemma FailureExactly(args: seq<string>, world: World)
    ensures Behaviour(args, world).outcome.Failed? ==> Behaviour(args, world).sent.None?
    ensures forall e :: Behaviour(args, world).outcome == Failed(BadArguments(e)) <==>
      ParseArguments(args, world.parsers) == Rejected(e)
    ensures forall e :: Behaviour(args, world).outcome == Failed(NoBroadcast(e)) <==>
      var p := ParseArguments(args, world.parsers);
      p.Parsed? && !(p.options.hostname.Some? && IsHostAlive(world.precheck))
      && TargetOf(p.options, world.network) == Err(e)
  {
    var p := ParseArguments(args, world.parsers);
    if p.Parsed? {
      AfterParsingKinds(p.options, world);
      AfterParsingNoBroadcast(p.options, world);
    }
  }

  /** For parsed options: the broadcast lookup fails the run exactly when it is reached and fails. */
  lemma AfterParsingNoBroadcast(o: ProgramOptions, world: World)
    ensures forall e :: AfterParsing(o, world).outcome == Failed(NoBroadcast(e)) <==>
      !(o.hostname.Some? && IsHostAlive(world.precheck)) && TargetOf(o, world.network) == Err(e)
  {
    PollNeverFails(world.probes, o.timeout);
  }

  /**
   * The options Main sends with are valid, so a send can only fail in the
   * socket; and it does fail exactly when the socket does.
   */
  lemma SendFailsOnlyInTransport(args: seq<string>, world: World)
    ensures forall e :: Behaviour(args, world).outcome == Failed(SendFailed(e)) ==> e.cause == TransportFailure
    ensures Behaviour(args, world).outcome.Failed? && Behaviour(args, world).outcome.failure.SendFailed? <==>
      var p := ParseArguments(args, world.parsers);
      p.Parsed? && !(p.options.hostname.Some? && IsHostAlive(world.precheck))
      && TargetOf(p.options, world.network).Ok? && !world.transportOk
  {
    var p := ParseArguments(args, world.parsers);
    if p.Parsed? {
      ParsedOptionsAreValid(args, world.parsers);
      AfterParsingSendFailure(p.options, world);
    }
  }

  /** For valid options: the send fails only in the socket, and exactly when the socket fails. */
  lemma AfterParsingSendFailure(o: ProgramOptions, world: World)
    requires ValidMac(o.macAddress) && 0 < o.port <= 65535
    ensures forall e :: AfterParsing(o, world).outcome == Failed(SendFailed(e)) ==> e.cause == TransportFailure
    ensures AfterParsing(o, world).outcome.Failed? && AfterParsing(o, world).outcome.failure.SendFailed? <==>
      !(o.hostname.Some? && IsHostAlive(world.precheck)) && TargetOf(o, world.network).Ok? && !world.transportOk
  {
    PollNeverFails(world.probes, o.timeout);
  }

  /**
   * What is sent, when anything is: the 102-byte magic packet of the parsed
   * MAC, to the given or derived broadcast address, on the parsed port.
   */
  lemma SentDatagram(args: seq<string>, world: World)
    ensures Behaviour(args, world).sent.Some? ==>
      var p := ParseArguments(args, world.parsers);
      var d := Behaviour(args, world).sent.value;
      && p.Parsed?
      && TargetOf(p.options, world.network).Ok?
      && d.destination == TargetOf(p.options, world.network).value
      && d.port == p.options.port as int
      && d.payload == Packet(MacBytes(p.options.macAddress))
      && |d.payload| == PacketLength
  {
    var p := ParseArguments(args, world.parsers);
    if Behaviour(args, world).sent.Some? {
      ParsedOptionsAreValid(args, world.parsers);
      MagicPacketLayout(MacBytes(p.options.macAddress));
    }
  }

  /** Something is sent exactly when the run gets past the send. */
  lemma SentExactly(args: seq<string>, world: World)
    ensures Behaviour(args, world).sent.Some? <==>
      var o := Behaviour(args, world).outcome;
      o.Sent? || o.CameUp? || o.TimedOut? || o.StillPolling?
  {
    var p := ParseArguments(args, world.parsers);
    if p.Parsed? {
      PollNeverFails(world.probes, p.options.timeout);
    }
  }

  /** The loop ends only with the host up or the timeout past. */
  lemma {:induction false} PollNeverFails(probes: seq<Probe>, timeout: int32)
    ensures Poll(probes, timeout).CameUp? || Poll(probes, timeout).TimedOut? || Poll(probes, timeout).StillPolling?
    decreases |probes|
  {
    if |probes| > 0 {
      PollNeverFails(probes[1..], timeout);
    }
  }

  /** With no host name, or with `--no-wait`, a successful send ends the run with code 0. */
  lemma NoWaitingAfterSend(args: seq<string>, world: World)
    requires ParseArguments(args, world.parsers).Parsed?
    requires var o := ParseArguments(args, world.parsers).options; o.hostname.None? || !o.wait
    requires Behaviour(args, world).sent.Some?
    ensures Behaviour(args, world).outcome == Sent
    ensures ExitCode(Behaviour(args, world).outcome) == ExitCodeSuccess
  {
  }

  /** With a host name and waiting on, a run that sent the packet ends as the polling loop does. */
  lemma WaitingFollowsPoll(args: seq<string>, world: World)
    requires ParseArguments(args, world.parsers).Parsed?
    requires var o := ParseArguments(args, world.parsers).options; o.hostname.Some? && o.wait
    requires Behaviour(args, world).sent.Some?
    ensures Behaviour(args, world).outcome == Poll(world.probes, ParseArguments(args, world.parsers).options.timeout)
  {
  }

  /** Exit code 3 needs a host name, waiting on, and a failed probe strictly past the timeout. */
  lemma TimeoutNeedsLateFailure(args: seq<string>, world: World)
    requires Behaviour(args, world).outcome == TimedOut
    ensures ParseArguments(args, world.parsers).Parsed?
    ensures var o := ParseArguments(args, world.parsers).options;
      && o.hostname.Some? && o.wait
      && (exists k :: 0 <= k < |world.probes| && QuietBefore(world.probes, o.timeout, k) && !IsHostAlive(world.probes[k].reply) && world.probes[k].elapsed > o.timeout as real)
  {
    var p := ParseArguments(args, world.parsers);
    if p.Parsed? {
      PollTimedOut(world.probes, p.options.timeout);
    }
  }
}
