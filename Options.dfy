/** `ProgramOptions`: the settings of one run, with the defaults of its property initialisers. */
module Options {
  import opened Wrappers
  import opened Bytes
  import opened NetworkInfo

  /** One run's settings. `port` and `timeout` are C# `int`s; `timeout` is in seconds. */
  datatype ProgramOptions = ProgramOptions(
    macAddress: string,
    hostname: Option<string>,
    broadcast: Option<Address>,
    port: int32,
    timeout: int32,
    wait: bool,
    silent: bool)

  /** The UDP port Wake-on-LAN is sent to unless told otherwise. */
  const DefaultPort: int32 := 9

  /** How many seconds to wait for the host unless told otherwise. */
  const DefaultTimeout: int32 := 300

  /** `new ProgramOptions()`: no MAC (the empty string), no host, no broadcast address, port 9, 300 s, wait, not silent. */
  function DefaultOptions(): (o: ProgramOptions)
    ensures o.macAddress == "" && o.hostname.None? && o.broadcast.None?
    ensures o.port == 9 && o.timeout == 300 && o.wait && !o.silent
  {
    ProgramOptions("", None, None, DefaultPort, DefaultTimeout, true, false)
  }
}
