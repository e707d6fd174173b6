/**
 * Keeping an SSH tunnel up: when the tunnel's process exits a timer is armed, when the timer
 * fires a new tunnel is started on the same local port, and so on until stop() is called.
 * Calls, process exits, timers and the end of a startup are atomic steps.
 */
module SshAttach {
  import opened Wrappers

  type TunnelId = nat
  type StartupId = nat

  datatype Tunnel = Tunnel(exited: bool, stopCalled: bool)

  class Attach {
    // The variables the closures share.
    const localPort: nat
    var currentTunnel: Option<TunnelId>
    var reconnectTimer: bool  // a timer handle is held, fired or not
    var pendingTunnelStartup: Option<StartupId>
    var stopped: bool
    var exitListener: Option<TunnelId>  // the tunnel whose process the registered exit listener is on

    // The environment: every tunnel ever started, the startups begun and those not yet settled, the live timers.
    var tunnels: seq<Tunnel>
    var startupPorts: seq<nat>  // the local port each reconnect startup asks for
    var startupsAborted: set<StartupId>
    var unsettled: set<StartupId>
    var liveTimers: nat
    var timersSet: nat

    /** Every tunnel but the current one has been stopped; the current one has not exited and is listened to. */
    ghost predicate ValidTunnels()
      reads this
    {
      && (currentTunnel.Some? ==> currentTunnel.value < |tunnels| && !tunnels[currentTunnel.value].exited)
      && (forall t | 0 <= t < |tunnels| :: currentTunnel != Some(t) ==> tunnels[t].stopCalled)
      && exitListener == currentTunnel
    }

    /** Until stop() exactly one of tunnel, timer and startup is there; afterwards none is, but for one startup still to settle. */
    ghost predicate Valid()
      reads this
    {
      && ValidTunnels()
      && (forall s | 0 <= s < |startupPorts| :: startupPorts[s] == localPort)
      && (forall s | s in unsettled :: s < |startupPorts|)
      && liveTimers == (if reconnectTimer && !stopped then 1 else 0)
      && (if stopped then
            && currentTunnel.None? && pendingTunnelStartup.None?
            && unsettled <= startupsAborted
            && (forall s, t | s in unsettled && t in unsettled :: s == t)
          else
            && unsettled == (match pendingTunnelStartup case Some(s) => {s} case None => {})
            && startupsAborted == {}
            && (currentTunnel.Some? ==> !reconnectTimer && pendingTunnelStartup.None?)
            && (reconnectTimer ==> currentTunnel.None? && pendingTunnelStartup.None?)
            && (currentTunnel.Some? || reconnectTimer || pendingTunnelStartup.Some?))
    }

    /** The first tunnel is up on `port`; its process may have exited by now. */
    constructor (port: nat, exited: bool)
      ensures Valid() && !stopped && localPort == port && |tunnels| == 1
      ensures if exited then reconnectTimer else currentTunnel == Some(0)
    {
      localPort, tunnels := port, [Tunnel(exited, false)];
      currentTunnel, reconnectTimer, pendingTunnelStartup, stopped, exitListener := None, false, None, false, None;
      startupPorts, startupsAborted, unsettled, liveTimers, timersSet := [], {}, {}, 0, 0;
      new;
      WatchTunnel(0);
    }

    method ScheduleReconnect()
      requires liveTimers == (if reconnectTimer && !stopped then 1 else 0)
      modifies this`reconnectTimer, this`liveTimers, this`timersSet
      ensures liveTimers == (if reconnectTimer && !stopped then 1 else 0)
      ensures reconnectTimer == (!stopped || old(reconnectTimer))
      ensures timersSet == old(timersSet) + if !stopped && !old(reconnectTimer) then 1 else 0
    {
      if stopped || reconnectTimer {
        return;
      }
      reconnectTimer := true;
      liveTimers, timersSet := liveTimers + 1, timersSet + 1;
    }

    /** tunnel.stop() */
    method StopTunnel(t: TunnelId)
      requires t < |tunnels|
      modifies this`tunnels
      ensures tunnels == old(tunnels)[t := old(tunnels)[t].(stopCalled := true)]
    {
      tunnels := tunnels[t := tunnels[t].(stopCalled := true)];
    }

    method WatchTunnel(t: TunnelId)
      requires !stopped && !reconnectTimer && liveTimers == 0 && t < |tunnels| && exitListener.None?
      requires forall u | 0 <= u < |tunnels| && u != t :: tunnels[u].stopCalled
      modifies this`currentTunnel, this`exitListener, this`tunnels, this`reconnectTimer, this`liveTimers, this`timersSet
      ensures ValidTunnels() && |tunnels| == |old(tunnels)|
      ensures old(tunnels)[t].exited ==>
        currentTunnel.None? && reconnectTimer && liveTimers == 1 && timersSet == old(timersSet) + 1
      ensures !old(tunnels)[t].exited ==>
        currentTunnel == Some(t) && !reconnectTimer && liveTimers == 0 && timersSet == old(timersSet)
        && tunnels == old(tunnels)
    {
      currentTunnel := Some(t);
      exitListener := Some(t);
      if tunnels[t].exited {
        OnExit(t);
      }
    }

    /** The exit listener of tunnel `t`. */
    method OnExit(t: TunnelId)
      requires t < |tunnels| && liveTimers == (if reconnectTimer && !stopped then 1 else 0)
      modifies this`currentTunnel, this`exitListener, this`tunnels, this`reconnectTimer, this`liveTimers, this`timersSet
      ensures tunnels == old(tunnels)[t := old(tunnels)[t].(stopCalled := true)]
      ensures old(stopped || currentTunnel != Some(t)) ==>
        && currentTunnel == old(currentTunnel) && exitListener == old(exitListener)
        && reconnectTimer == old(reconnectTimer) && liveTimers == old(liveTimers) && timersSet == old(timersSet)
      ensures !old(stopped || currentTunnel != Some(t)) ==>
        && currentTunnel.None? && exitListener.None? && reconnectTimer && liveTimers == 1
        && timersSet == old(timersSet) + if old(reconnectTimer) then 0 else 1
    {
      if stopped || currentTunnel != Some(t) {
        StopTunnel(t);
        return;
      }
      exitListener := None;
      StopTunnel(t);
      currentTunnel := None;
      ScheduleReconnect();
    }

    // ----- Steps ------------------------------------------------------------------------

    /** The process of a tunnel exits; only a registered listener notices. */
    method TunnelExits(t: TunnelId)
      requires Valid() && t < |tunnels| && !tunnels[t].exited
      modifies this`currentTunnel, this`exitListener, this`tunnels, this`reconnectTimer, this`liveTimers, this`timersSet
      ensures Valid() && |tunnels| == |old(tunnels)| && tunnels[t].exited
      ensures if old(currentTunnel) == Some(t) then reconnectTimer && currentTunnel.None? && timersSet == old(timersSet) + 1
              else currentTunnel == old(currentTunnel) && reconnectTimer == old(reconnectTimer) && timersSet == old(timersSet)
    {
      tunnels := tunnels[t := tunnels[t].(exited := true)];
      if exitListener == Some(t) {
        OnExit(t);
      }
    }

    /** The reconnect timer fires: a startup begins, on the port of the first tunnel. */
    method ReconnectTimerFires()
      requires Valid() && liveTimers > 0
      modifies this`reconnectTimer, this`liveTimers, this`pendingTunnelStartup, this`startupPorts, this`unsettled
      ensures Valid() && !stopped && !reconnectTimer && pendingTunnelStartup == Some(|old(startupPorts)|)
      ensures startupPorts == old(startupPorts) + [localPort]
    {
      liveTimers := liveTimers - 1;
      reconnectTimer := false;
      var startup := |startupPorts|;
      pendingTunnelStartup := Some(startup);
      startupPorts := startupPorts + [localPort];
      unsettled := unsettled + {startup};
    }

    /** startTunnel resolves, also when it was aborted too late; the new process may have exited by now. */
    method StartupSucceeds(startup: StartupId, exited: bool)
      requires Valid() && startup in unsettled
      modifies this`currentTunnel, this`exitListener, this`tunnels, this`reconnectTimer, this`liveTimers, this`timersSet
      modifies this`pendingTunnelStartup, this`unsettled
      ensures Valid() && unsettled == old(unsettled) - {startup} && |tunnels| == |old(tunnels)| + 1
      ensures stopped ==> timersSet == old(timersSet)
      ensures !stopped && exited ==> reconnectTimer && timersSet == old(timersSet) + 1
      ensures !stopped && !exited ==> currentTunnel == Some(|old(tunnels)|) && timersSet == old(timersSet)
    {
      unsettled := unsettled - {startup};
      var t := |tunnels|;
      tunnels := tunnels + [Tunnel(exited, false)];
      if stopped {
        StopTunnel(t);
      } else {
        WatchTunnel(t);
      }
      if pendingTunnelStartup == Some(startup) {
        pendingTunnelStartup := None;
      }
    }

    /** startTunnel rejects. */
    method StartupFails(startup: StartupId)
      requires Valid() && startup in unsettled
      modifies this`reconnectTimer, this`liveTimers, this`timersSet, this`pendingTunnelStartup, this`unsettled
      ensures Valid() && unsettled == old(unsettled) - {startup}
      ensures if stopped then timersSet == old(timersSet) else reconnectTimer && timersSet == old(timersSet) + 1
    {
      unsettled := unsettled - {startup};
      ScheduleReconnect();
      if pendingTunnelStartup == Some(startup) {
        pendingTunnelStartup := None;
      }
    }

    method Stop()
      requires Valid()
      modifies this`stopped, this`exitListener, this`liveTimers, this`startupsAborted, this`pendingTunnelStartup
      modifies this`tunnels, this`currentTunnel
      ensures Valid() && stopped && |tunnels| == |old(tunnels)|
      ensures old(stopped) ==> tunnels == old(tunnels) && startupsAborted == old(startupsAborted)
    {
      if stopped {
        return;
      }
      stopped := true;
      exitListener := None;
      if reconnectTimer {
        liveTimers := 0;
      }
      if pendingTunnelStartup.Some? {
        startupsAborted := startupsAborted + {pendingTunnelStartup.value};
      }
      pendingTunnelStartup := None;
      if currentTunnel.Some? {
        StopTunnel(currentTunnel.value);
      }
      currentTunnel := None;
    }
  }

  // ----- Whole runs -----------------------------------------------------------------------

  datatype Step =
    | Exits(tunnel: TunnelId)
    | TimerFires
    | Succeeds(startup: StartupId, exited: bool)
    | Fails(startup: StartupId)
    | StopCalled

  /** One step of the outside world; one that cannot happen now is skipped. */
  method Take(a: Attach, step: Step)
    requires a.Valid()
    modifies a
    ensures a.Valid() && (old(a.stopped) ==> a.stopped) && |a.tunnels| >= |old(a.tunnels)|
    ensures step.StopCalled? ==> a.stopped
    ensures old(a.stopped) ==>
      a.timersSet == old(a.timersSet) && a.startupPorts == old(a.startupPorts) && a.unsettled <= old(a.unsettled)
  {
    match step {
      case Exits(t) => if t < |a.tunnels| && !a.tunnels[t].exited { a.TunnelExits(t); }
      case TimerFires => if a.liveTimers > 0 { a.ReconnectTimerFires(); }
      case Succeeds(startup, exited) => if startup in a.unsettled { a.StartupSucceeds(startup, exited); }
      case Fails(startup) => if startup in a.unsettled { a.StartupFails(startup); }
      case StopCalled => a.Stop();
    }
  }

  method Run(a: Attach, steps: seq<Step>)
    requires a.Valid()
    modifies a
    ensures a.Valid() && (old(a.stopped) || StopCalled in steps ==> a.stopped)
    ensures old(a.stopped) ==>
      a.timersSet == old(a.timersSet) && a.startupPorts == old(a.startupPorts) && a.unsettled <= old(a.unsettled)
  {
    for i := 0 to |steps|
      invariant a.Valid() && (old(a.stopped) || StopCalled in steps[..i] ==> a.stopped)
      invariant old(a.stopped) ==>
        a.timersSet == old(a.timersSet) && a.startupPorts == old(a.startupPorts) && a.unsettled <= old(a.unsettled)
    {
      Take(a, steps[i]);
      assert steps[..i + 1] == steps[..i] + [steps[i]];
    }
    assert steps[..|steps|] == steps;
  }

  function Count(b: bool): nat {
    if b then 1 else 0
  }

  /**
   * Every reachable state: until stop() exactly one of live tunnel, armed timer and startup in
   * progress is there; after it none is, and once no startup is unsettled every tunnel ever
   * started has been stopped. All startups ask for the first tunnel's port.
   */
  lemma ReachableState(a: Attach)
    requires a.Valid()
    ensures !a.stopped ==> Count(a.currentTunnel.Some?) + a.liveTimers + |a.unsettled| == 1
    ensures a.stopped ==> a.currentTunnel.None? && a.liveTimers == 0 && |a.unsettled| <= 1
    ensures a.stopped ==> forall t | 0 <= t < |a.tunnels| :: a.tunnels[t].stopCalled
    ensures forall t | 0 <= t < |a.tunnels| && !a.tunnels[t].stopCalled :: a.currentTunnel == Some(t)
    ensures forall port | port in a.startupPorts :: port == a.localPort
  {
    if a.unsettled != {} {
      var s :| s in a.unsettled;
      assert a.unsettled == {s};
    }
  }
}
