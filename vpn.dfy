/**
 * `VPNManager` from video_downloader.py: connects to a NordVPN server in a
 * random country, disconnects, and rotates the connection once a random
 * interval has passed. The `nordvpn` command's outcome, the random country,
 * the random interval and the clock are inputs; the sleeps after connecting
 * and between disconnect and connect are not modelled.
 */
module Vpn {
  import opened Wrappers

  /** The countries `connect_to_random_server` chooses from. */
  const Countries: seq<string> := ["US", "DE", "GB", "NL", "SE", "CH", "FR", "CA"]

  /** Bounds of `random.randint` for the rotation interval, in seconds. */
  const MinIntervalSeconds: int := 300
  const MaxIntervalSeconds: int := 1800

  /** Microseconds per second: times are `datetime` values, in microseconds. */
  const Micro: int := 1_000_000

  /** What running a `nordvpn` command ends in: an exit status, the `subprocess` timeout, or another exception. */
  datatype CommandOutcome = Exited(returnCode: int) | TimedOut | Raised(message: string)

  predicate Succeeded(o: CommandOutcome) {
    o.Exited? && o.returnCode == 0
  }

  /** The manager's mutable fields. */
  datatype VpnState = VpnState(currentServer: Option<string>, lastRotation: int)

  /** The state invariant: the current server, when set, is one of the listed countries. */
  predicate ServerListed(s: VpnState) {
    s.currentServer.Some? ==> s.currentServer.value in Countries
  }

  /**
   * `connect_to_random_server` with `country` drawn: disabled, it reports
   * success and changes nothing; enabled, it succeeds exactly when the
   * command exits with status 0, and only then records the country and the
   * connection time.
   */
  function ConnectStep(enabled: bool, s: VpnState, country: string, outcome: CommandOutcome, now: int): (r: (bool, VpnState))
    ensures !enabled ==> r == (true, s)
    ensures enabled ==> (r.0 <==> Succeeded(outcome))
    ensures r.1 != s ==> enabled && Succeeded(outcome) && r.1 == VpnState(Some(country), now)
    ensures enabled && Succeeded(outcome) ==> r.1.currentServer == Some(country) && r.1.lastRotation == now
  {
    if !enabled then (true, s)
    else if Succeeded(outcome) then (true, VpnState(Some(country), now))
    else (false, s)
  }

  /** `disconnect`: true when disabled, else whether the command exited with status 0; no field changes. */
  function DisconnectResult(enabled: bool, outcome: CommandOutcome): (r: bool)
    ensures r <==> !enabled || Succeeded(outcome)
  {
    if !enabled then true else Succeeded(outcome)
  }

  /** A rotation is due when forced or when strictly more than the interval has passed since the last one. */
  predicate RotationDue(force: bool, s: VpnState, now: int, intervalSeconds: int) {
    force || now - s.lastRotation > intervalSeconds * Micro
  }

  /**
   * `rotate_if_needed`: disabled or not due, it reports success and changes
   * nothing; otherwise it disconnects (ignoring the result) and returns what
   * connecting returns.
   */
  function RotateStep(enabled: bool, s: VpnState, force: bool, now: int, intervalSeconds: int,
                      country: string, outcome: CommandOutcome, connectedAt: int): (r: (bool, VpnState))
    requires MinIntervalSeconds <= intervalSeconds <= MaxIntervalSeconds
    ensures !enabled || !RotationDue(force, s, now, intervalSeconds) ==> r == (true, s)
    ensures enabled && RotationDue(force, s, now, intervalSeconds) ==> (r.0 <==> Succeeded(outcome))
    ensures r.1 != s ==> enabled && RotationDue(force, s, now, intervalSeconds) && Succeeded(outcome)
                         && r.1 == VpnState(Some(country), connectedAt)
  {
    if !enabled then (true, s)
    else if RotationDue(force, s, now, intervalSeconds) then ConnectStep(enabled, s, country, outcome, connectedAt)
    else (true, s)
  }

  /** A disabled manager is inert: every operation reports success and no field changes. */
  lemma DisabledIsInert(s: VpnState, force: bool, now: int, intervalSeconds: int,
                        country: string, outcome: CommandOutcome, disconnectOutcome: CommandOutcome, connectedAt: int)
    requires MinIntervalSeconds <= intervalSeconds <= MaxIntervalSeconds
    ensures ConnectStep(false, s, country, outcome, now) == (true, s)
    ensures DisconnectResult(false, disconnectOutcome)
    ensures RotateStep(false, s, force, now, intervalSeconds, country, outcome, connectedAt) == (true, s)
  {
  }

  /**
   * An enabled manager rotates exactly when the rotation is due, and then
   * reports the connection's result; when not due it reports success and
   * keeps its state. The state changes only through a successful connection.
   */
  lemma RotateIffDue(s: VpnState, force: bool, now: int, intervalSeconds: int,
                     country: string, outcome: CommandOutcome, connectedAt: int)
    requires MinIntervalSeconds <= intervalSeconds <= MaxIntervalSeconds
    ensures var r := RotateStep(true, s, force, now, intervalSeconds, country, outcome, connectedAt);
      && (RotationDue(force, s, now, intervalSeconds) ==> r == ConnectStep(true, s, country, outcome, connectedAt))
      && (!RotationDue(force, s, now, intervalSeconds) ==> r == (true, s))
      && (r.1 != s ==> RotationDue(force, s, now, intervalSeconds) && Succeeded(outcome)
                       && r.1 == VpnState(Some(country), connectedAt))
  {
  }

  /** No unforced rotation happens within the shortest interval, 300 seconds, of the last one. */
  lemma {:induction false} NoEarlyRotation(s: VpnState, now: int, intervalSeconds: int,
                                          country: string, outcome: CommandOutcome, connectedAt: int)
    requires MinIntervalSeconds <= intervalSeconds <= MaxIntervalSeconds
    requires now - s.lastRotation <= MinIntervalSeconds * Micro
    ensures !RotationDue(false, s, now, intervalSeconds)
    ensures RotateStep(true, s, false, now, intervalSeconds, country, outcome, connectedAt) == (true, s)
  {
    assert MinIntervalSeconds * Micro <= intervalSeconds * Micro;
  }

  /** A forced rotation always reconnects, however recent the last one was. */
  lemma ForcedRotationConnects(s: VpnState, now: int, intervalSeconds: int,
                               country: string, outcome: CommandOutcome, connectedAt: int)
    requires MinIntervalSeconds <= intervalSeconds <= MaxIntervalSeconds
    ensures RotateStep(true, s, true, now, intervalSeconds, country, outcome, connectedAt).0 <==> Succeeded(outcome)
  {
  }

  /** Connecting and rotating keep the current server among the listed countries. */
  lemma ServerStaysListed(enabled: bool, s: VpnState, force: bool, now: int, intervalSeconds: int,
                          country: string, outcome: CommandOutcome, connectedAt: int)
    requires MinIntervalSeconds <= intervalSeconds <= MaxIntervalSeconds
    requires ServerListed(s) && country in Countries
    ensures ServerListed(ConnectStep(enabled, s, country, outcome, now).1)
    ensures ServerListed(RotateStep(enabled, s, force, now, intervalSeconds, country, outcome, connectedAt).1)
  {
  }

  class VpnManager {
    const enabled: bool
    var currentServer: Option<string>
    var lastRotation: int

    function State(): VpnState
      reads this
    {
      VpnState(currentServer, lastRotation)
    }

    ghost predicate Valid()
      reads this
    {
      ServerListed(State())
    }

    /** `__init__`: no server yet, and the last rotation is the creation time. */
    constructor (enabled: bool, now: int)
      ensures Valid()
      ensures this.enabled == enabled && currentServer == None && lastRotation == now
    {
      this.enabled := enabled;
      currentServer := None;
      lastRotation := now;
    }

    /** `connect_to_random_server`, `country` being the `random.choice` of the country list. */
    method ConnectToRandomServer(country: string, outcome: CommandOutcome, now: int) returns (ok: bool)
      requires Valid() && country in Countries
      modifies this
      ensures Valid()
      ensures (ok, State()) == ConnectStep(enabled, old(State()), country, outcome, now)
    {
      if !enabled {
        return true;
      }
      if outcome.Exited? && outcome.returnCode == 0 {
        currentServer := Some(country);
        lastRotation := now;
        ok := true;
      } else {
        ok := false;
      }
    }

    /** `disconnect`: reports whether `nordvpn disconnect` exited with status 0; the fields stay as they are. */
    method Disconnect(outcome: CommandOutcome) returns (ok: bool)
      ensures ok <==> !enabled || Succeeded(outcome)
    {
      if !enabled {
        return true;
      }
      ok := outcome.Exited? && outcome.returnCode == 0;
    }

    /**
     * `rotate_if_needed`, `intervalSeconds` being the `random.randint(300, 1800)`
     * draw, `now` the time of the check and `connectedAt` the time the new
     * connection is recorded.
     */
    method RotateIfNeeded(force: bool, now: int, intervalSeconds: int,
                          disconnectOutcome: CommandOutcome,
                          country: string, outcome: CommandOutcome, connectedAt: int) returns (ok: bool)
      requires Valid() && country in Countries
      requires MinIntervalSeconds <= intervalSeconds <= MaxIntervalSeconds
      modifies this
      ensures Valid()
      ensures (ok, State()) == RotateStep(enabled, old(State()), force, now, intervalSeconds, country, outcome, connectedAt)
    {
      if !enabled {
        return true;
      }
      var elapsed := now - lastRotation;
      if force || elapsed > intervalSeconds * Micro {
        var _ := Disconnect(disconnectOutcome);
        ok := ConnectToRandomServer(country, outcome, connectedAt);
      } else {
        ok := true;
      }
    }
  }
}
