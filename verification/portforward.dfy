/** Per-mapping forwarding decisions of `src/portforward.go`: the forwarding
    modes, the remote-port probe, what `forward` reports for each mode, and
    the failure counter of the accept loop it starts.

    The SSH client, the listeners and the remote command are not modelled;
    their outcomes arrive as parameters (`ProbeEnv`, `ForwardEnv`,
    `AcceptEvent`). */
module PortForward {
  import opened Options
  import opened Net
  import opened Text

  /** `ForwardMode` is a Go `int`; only two values are named. */
  type ForwardMode = int

  /** Remote port forwarded to a local address. */
  const Rtl: ForwardMode := 0
  /** Local port forwarded to a remote address. */
  const Ltr: ForwardMode := 1

  /** The numeric values of the two named modes. */
  lemma ModesDistinct()
    ensures Rtl == 0 && Ltr == 1 && Rtl != Ltr
  {
  }

  // ---------------------------------------------------------------------
  // Remote port probe (`checkRemotePortAvailable`)
  // ---------------------------------------------------------------------

  /** What `session.CombinedOutput` returned: no error, or an error whose
      `Error()` text is `message`. */
  datatype CommandResult = CommandSucceeded | CommandFailed(message: string)

  /** Outcomes the probe observes: whether `client.NewSession()` gave a
      session, and what running the command on it gave. */
  datatype ProbeEnv = ProbeEnv(sessionOpened: bool, result: CommandResult)

  /** Why the probe stops the process. */
  datatype ProbeFailure =
    | NilSession                           // no session was opened; running the command on it panics
    | NetstatUnavailable(message: string)  // the command failed for another reason; the process exits

  /** The probe's report: the command it sent, if any, and its verdict, where
      `Failure` means the process ends there. */
  datatype Probe = Probe(issued: Option<string>, verdict: Result<bool, ProbeFailure>)

  /** The part of an SSH exit error that tells grep found no line. */
  const NoMatchMarker: string := "exited with status 1"

  /** The text placed around the decimal port in the probe command. */
  const ProbePrefix: string := "netstat -ltn|grep ':"
  const ProbeSuffix: string := " '"

  /** The remote command that looks for a listener on `port`. */
  function ProbeCommand(port: nat): string
  {
    ProbePrefix + Decimal(port) + ProbeSuffix
  }

  /** The port can be read back from the probe command: the text between the
      fixed prefix and suffix is the port in decimal. */
  lemma ProbeCommandNamesPort(port: nat)
    ensures var c := ProbeCommand(port);
            |c| > |ProbePrefix| + |ProbeSuffix| &&
            StartsWith(c, ProbePrefix) &&
            c[|c| - |ProbeSuffix|..] == ProbeSuffix &&
            AllDigits(c[|ProbePrefix|..|c| - |ProbeSuffix|]) &&
            ParseDecimal(c[|ProbePrefix|..|c| - |ProbeSuffix|]) == port
  {
    var c := ProbeCommand(port);
    assert c[|ProbePrefix|..|c| - |ProbeSuffix|] == Decimal(port);
    assert c[..|ProbePrefix|] == ProbePrefix;
    ParseDecimalOfDecimal(port);
  }

  /** Different ports are probed with different commands. */
  lemma ProbeCommandInjective(a: nat, b: nat)
    requires ProbeCommand(a) == ProbeCommand(b)
    ensures a == b
  {
    ProbeCommandNamesPort(a);
    ProbeCommandNamesPort(b);
  }

  /** `checkRemotePortAvailable`: port 0 is available without asking;
      otherwise the command's success and the "exited with status 1" error
      both mean available, and anything else stops the process. The probe
      never answers "occupied". */
  function CheckRemotePortAvailable(port: nat, env: ProbeEnv): (p: Probe)
    ensures p.verdict.Success? ==> p.verdict.value
    ensures port == 0 ==> p.issued.None? && p.verdict.Success?
    ensures port != 0 ==> (p.issued.Some? <==> env.sessionOpened)
    ensures p.issued.Some? ==> p.issued.value == ProbeCommand(port)
    ensures p.verdict.Failure? <==>
              port != 0 &&
              (!env.sessionOpened ||
               (env.result.CommandFailed? && !Contains(env.result.message, NoMatchMarker)))
    ensures p.verdict == Failure(NilSession) <==> port != 0 && !env.sessionOpened
  {
    if port == 0 then Probe(None, Success(true))
    else if !env.sessionOpened then Probe(None, Failure(NilSession))
    else
      var cmd := ProbeCommand(port);
      match env.result
      case CommandSucceeded => Probe(Some(cmd), Success(true))
      case CommandFailed(message) =>
        if Contains(message, NoMatchMarker) then Probe(Some(cmd), Success(true))
        else Probe(Some(cmd), Failure(NetstatUnavailable(message)))
  }

  /** The fixed part of the error text of an SSH command that exits with a
      status (no signal, no reason), as the SSH client library renders it. */
  const ExitPrefix: string := "Process exited with status "

  /** The error text of an SSH command that exits with `status`. */
  function ExitMessage(status: nat): string
  {
    ExitPrefix + Decimal(status)
  }

  /** A text whose first two characters are not "ex" does not start with
      the marker. */
  lemma NotMarkerHere(s: string, m: string)
    requires |m| >= 2 && m[0] == 'e' && m[1] == 'x'
    requires |s| >= 2 && s[1] != 'x'
    ensures !StartsWith(s, m)
  {
    if |m| <= |s| {
      assert s[..|m|][1] == s[1];
    }
  }

  /** The scan moves past the first `k` positions of a text that has no 'x'
      at positions 1 to `k`, since the marker cannot start at any of them. */
  lemma {:induction false} SkipNoX(s: string, m: string, k: nat)
    requires |m| >= 2 && m[0] == 'e' && m[1] == 'x'
    requires k + 1 <= |s| && 'x' !in s[1..k + 1]
    ensures Contains(s, m) <==> Contains(s[k..], m)
    decreases k
  {
    if k > 0 {
      assert s[1] == s[1..k + 1][0];
      NotMarkerHere(s, m);
      assert s[1..][1..k] == s[1..k + 1][1..];
      SkipNoX(s[1..], m, k - 1);
      assert s[1..][k - 1..] == s[k..];
    }
  }

  /** The characters of the exit-message prefix up to the end of "exited". */
  lemma ExitPrefixChars()
    ensures |ExitPrefix| == 27
    ensures ExitPrefix[..14] == ['P','r','o','c','e','s','s',' ','e','x','i','t','e','d']
    ensures ExitPrefix[13..] == "d with status "
  {
  }

  /** Text that begins "Process exited" holds the marker exactly when the
      text from "exited" on does. */
  lemma SkipProcessWord(h: string, m: string)
    requires |m| >= 2 && m[0] == 'e' && m[1] == 'x'
    requires |h| >= 14 && h[..14] == ['P','r','o','c','e','s','s',' ','e','x','i','t','e','d']
    ensures Contains(h, m) <==> Contains(h[8..], m)
  {
    assert h[1..9] == h[..14][1..9] == ['r','o','c','e','s','s',' ','e'];
    SkipNoX(h, m, 8);
  }

  /** Text that begins "exited" and has no further 'e' after it holds the
      marker only at its start. */
  lemma MarkerOnlyAtStart(t: string, m: string)
    requires |m| >= 2 && m[0] == 'e' && m[1] == 'x'
    requires |t| >= 6 && t[..6] == ['e','x','i','t','e','d'] && 'e' !in t[5..]
    ensures Contains(t, m) <==> StartsWith(t, m)
  {
    var u := t[1..];
    assert u[1..5] == t[..6][2..6] == ['i','t','e','d'];
    SkipNoX(u, m, 4);
    assert u[4..] == t[5..];
    ContainsNeedsHead(t[5..], m);
  }

  /** Text that begins "Process exited" and has no 'e' after that holds the
      marker only at position 8. */
  lemma MarkerOnlyAtEight(h: string, m: string)
    requires |m| >= 2 && m[0] == 'e' && m[1] == 'x'
    requires |h| >= 14 && h[..14] == ['P','r','o','c','e','s','s',' ','e','x','i','t','e','d']
    requires 'e' !in h[13..]
    ensures Contains(h, m) <==> StartsWith(h[8..], m)
  {
    SkipProcessWord(h, m);
    var t := h[8..];
    assert t[..6] == h[8..14];
    assert t[5..] == h[13..];
    MarkerOnlyAtStart(t, m);
  }

  /** After "exit" an exit message holds no further 'e'. */
  lemma ExitMessageShape(d: string)
    requires AllDigits(d)
    ensures |ExitPrefix + d| >= 14
    ensures (ExitPrefix + d)[..14] == ['P','r','o','c','e','s','s',' ','e','x','i','t','e','d']
    ensures 'e' !in (ExitPrefix + d)[13..]
  {
    var h := ExitPrefix + d;
    ExitPrefixChars();
    assert h[..14] == ExitPrefix[..14];
    var w := h[13..];
    assert w == ExitPrefix[13..] + d;
    forall i | 0 <= i < |w|
      ensures w[i] != 'e'
    {
      if i >= 14 {
        assert w[i] == d[i - 14];
        assert IsDigit(d[i - 14]);
      }
    }
  }

  /** At position 8 an exit message reads "exited with status " and then the
      digits, so the marker starts there exactly when the first digit is 1. */
  lemma MarkerAtEight(d: string)
    requires |d| >= 1
    ensures StartsWith((ExitPrefix + d)[8..], NoMatchMarker) <==> d[0] == '1'
  {
    var t := (ExitPrefix + d)[8..];
    var m := NoMatchMarker;
    forall i | 0 <= i < 19
      ensures t[i] == m[i]
    {
      assert t[i] == ExitPrefix[i + 8];
    }
    assert t[..19] == m[..19];
    assert t[19] == d[0];
    if d[0] == '1' {
      assert t[..20] == t[..19] + [t[19]];
    }
  }

  /** The marker test is a substring test, so it accepts every exit status
      whose decimal form starts with 1 (1, 10..19, 100..199, ...), not only
      grep's "no match" status 1. */
  lemma ExitStatusAccepted(status: nat)
    ensures Contains(ExitMessage(status), NoMatchMarker) <==> Decimal(status)[0] == '1'
  {
    var d := Decimal(status);
    ExitMessageShape(d);
    assert NoMatchMarker[..2] == ['e', 'x'];
    MarkerOnlyAtEight(ExitPrefix + d, NoMatchMarker);
    MarkerAtEight(d);
  }

  /** Exit status 1 (grep found nothing) counts as available; exit status 2
      (grep failed) stops the process. */
  lemma GrepStatusesOnProbe(port: nat)
    requires port != 0
    ensures CheckRemotePortAvailable(port, ProbeEnv(true, CommandFailed(ExitMessage(1)))).verdict
              == Success(true)
    ensures CheckRemotePortAvailable(port, ProbeEnv(true, CommandFailed(ExitMessage(2)))).verdict
              == Failure(NetstatUnavailable(ExitMessage(2)))
  {
    ExitStatusAccepted(1);
    ExitStatusAccepted(2);
  }

  // ---------------------------------------------------------------------
  // `forward`
  // ---------------------------------------------------------------------

  /** The listener the accept loop runs on. `NilListener` is the nil
      `*net.TCPListener` left behind by a failed `net.ListenTCP`: its
      `Accept` fails at once, every time. */
  datatype Listener = LiveListener | NilListener

  /** Outcomes `forward` observes: the probe's, and whether the listen call
      (`client.ListenTCP` for Rtl, `net.ListenTCP` for Ltr) succeeded. */
  datatype ForwardEnv = ForwardEnv(probe: ProbeEnv, listenOk: bool)

  /** Why `forward` returned false. */
  datatype Refusal = PortOccupied | ListenFailed

  /** What `forward` did: returned true, starting an accept loop on
      `loop` (none for a mode it does not know); returned false; or stopped
      the process inside the probe. */
  datatype ForwardResult =
    | Forwarded(loop: Option<Listener>)
    | NotForwarded(why: Refusal)
    | ForwardAborted(failure: ProbeFailure)

  /** `forward` as written. In Rtl mode it fails when the listen call errors
      and otherwise starts a loop on a live listener; the probe can stop the
      process but never refuses. In Ltr mode the listen error is only
      logged, so it reports success and runs its loop on a nil listener. A
      mode other than Rtl and Ltr reports success and starts nothing. */
  function Forward(rAddr: TcpAddr, lAddr: TcpAddr, mode: ForwardMode, env: ForwardEnv): (r: ForwardResult)
    ensures r.NotForwarded? ==> mode == Rtl && r.why == ListenFailed
    ensures r.ForwardAborted? ==>
              mode == Rtl && CheckRemotePortAvailable(rAddr.port, env.probe).verdict == Failure(r.failure)
    ensures mode == Rtl && CheckRemotePortAvailable(rAddr.port, env.probe).verdict.Failure? ==>
              r == ForwardAborted(CheckRemotePortAvailable(rAddr.port, env.probe).verdict.error)
    ensures mode == Rtl && CheckRemotePortAvailable(rAddr.port, env.probe).verdict.Success? ==>
              (r.Forwarded? <==> env.listenOk)
    ensures mode == Rtl && rAddr.port == 0 ==> !r.ForwardAborted?
    ensures mode == Rtl && r.Forwarded? ==> r.loop == Some(LiveListener)
    ensures mode == Ltr ==> r.Forwarded? && r.loop.Some? && (r.loop.value == NilListener <==> !env.listenOk)
    ensures mode != Rtl && mode != Ltr ==> r == Forwarded(None)
  {
    if mode == Rtl then
      var probe := CheckRemotePortAvailable(rAddr.port, env.probe);
      if probe.verdict.Failure? then ForwardAborted(probe.verdict.error)
      else if !probe.verdict.value then NotForwarded(PortOccupied)
      else if !env.listenOk then NotForwarded(ListenFailed)
      else Forwarded(Some(LiveListener))
    else if mode == Ltr then
      Forwarded(Some(if env.listenOk then LiveListener else NilListener))
    else
      Forwarded(None)
  }

  /** `forward` with the Ltr listen error returning false, as the Rtl branch
      does. It reports success exactly when a live listener was opened. */
  function ForwardChecked(rAddr: TcpAddr, lAddr: TcpAddr, mode: ForwardMode, env: ForwardEnv): (r: ForwardResult)
    ensures (mode == Rtl || mode == Ltr) && r.Forwarded? ==> r.loop == Some(LiveListener)
    ensures mode == Ltr ==> (r.Forwarded? <==> env.listenOk)
    ensures mode != Ltr ==> r == Forward(rAddr, lAddr, mode, env)
  {
    if mode == Ltr && !env.listenOk then NotForwarded(ListenFailed)
    else Forward(rAddr, lAddr, mode, env)
  }

  // ---------------------------------------------------------------------
  // The accept loop started by `forward`
  // ---------------------------------------------------------------------

  /** The loop tolerates this many failed accepts and closes the client on
      the next one. */
  const MaxFailedAccepts: nat := 10

  /** One `tl.Accept()` call's outcome. */
  datatype AcceptEvent = Accepted | AcceptFailed

  /** The loop's state: failed accepts so far, connections handed to a copy
      task so far, and whether it has closed the SSH client and returned. */
  datatype AcceptLoop = AcceptLoop(failed: nat, served: nat, clientClosed: bool)

  /** The state when the goroutine starts. */
  const AcceptStart: AcceptLoop := AcceptLoop(0, 0, false)

  /** A run of the loop over offered outcomes: the final state and how many
      outcomes it consumed before returning or running out. */
  datatype AcceptRun = AcceptRun(state: AcceptLoop, consumed: nat)

  /** Number of failed accepts in `events`. */
  function Failures(events: seq<AcceptEvent>): nat
  {
    if |events| == 0 then 0
    else (if events[0] == AcceptFailed then 1 else 0) + Failures(events[1..])
  }

  /** Number of successful accepts in `events`. */
  function Successes(events: seq<AcceptEvent>): nat
  {
    if |events| == 0 then 0
    else (if events[0] == Accepted then 1 else 0) + Successes(events[1..])
  }

  lemma {:induction false} FailuresAppend(a: seq<AcceptEvent>, b: seq<AcceptEvent>)
    ensures Failures(a + b) == Failures(a) + Failures(b)
    ensures Successes(a + b) == Successes(a) + Successes(b)
    decreases |a|
  {
    if |a| > 0 {
      assert (a + b)[1..] == a[1..] + b;
      FailuresAppend(a[1..], b);
    } else {
      assert a + b == b;
    }
  }

  /** One iteration of the loop. A success is handed to a copy task and
      leaves the failure count as it is; a failure increments it, and the
      loop closes the client once the count exceeds `MaxFailedAccepts`. */
  function AcceptStep(s: AcceptLoop, e: AcceptEvent): (s': AcceptLoop)
    requires !s.clientClosed
    ensures s'.failed >= s.failed && s'.served >= s.served
    ensures s'.failed + s'.served == s.failed + s.served + 1
    ensures s'.clientClosed <==> s'.failed > MaxFailedAccepts && s'.failed > s.failed
    ensures e == Accepted ==> s' == AcceptLoop(s.failed, s.served + 1, false)
    ensures e == AcceptFailed ==> s'.failed == s.failed + 1 && s'.served == s.served
  {
    match e
    case Accepted => AcceptLoop(s.failed, s.served + 1, false)
    case AcceptFailed =>
      var n := s.failed + 1;
      AcceptLoop(n, s.served, n > MaxFailedAccepts)
  }

  /** The loop driven by `events` from state `s` until it returns or the
      events run out. */
  function RunAccept(s: AcceptLoop, events: seq<AcceptEvent>): (r: AcceptRun)
    requires !s.clientClosed
    decreases |events|
  {
    if |events| == 0 then AcceptRun(s, 0)
    else
      var s' := AcceptStep(s, events[0]);
      if s'.clientClosed then AcceptRun(s', 1)
      else
        var r := RunAccept(s', events[1..]);
        AcceptRun(r.state, r.consumed + 1)
  }

  /** What a run of the loop does: the count is the number of failures seen
      (successes never reset it), the loop returns exactly when the count
      first exceeds `MaxFailedAccepts`, at a failure, and it consumes nothing
      after that. */
  lemma {:induction false} RunAcceptCounts(s: AcceptLoop, events: seq<AcceptEvent>)
    requires !s.clientClosed && s.failed <= MaxFailedAccepts
    ensures var r := RunAccept(s, events);
            && r.consumed <= |events|
            && r.state.failed == s.failed + Failures(events[..r.consumed])
            && r.state.served == s.served + Successes(events[..r.consumed])
            && (r.state.clientClosed <==> s.failed + Failures(events) > MaxFailedAccepts)
            && (r.state.clientClosed ==>
                  r.consumed > 0 && events[r.consumed - 1] == AcceptFailed &&
                  r.state.failed == MaxFailedAccepts + 1)
            && (!r.state.clientClosed ==> r.consumed == |events|)
    decreases |events|
  {
    if |events| > 0 {
      var e := events[0];
      var s' := AcceptStep(s, e);
      assert events == [e] + events[1..];
      FailuresAppend([e], events[1..]);
      assert [e][1..] == [];
      if s'.clientClosed {
        assert events[..1] == [e];
        assert e == AcceptFailed;
        assert Failures([e]) == 1;
      } else {
        RunAcceptCounts(s', events[1..]);
        var r := RunAccept(s', events[1..]);
        assert events[..r.consumed + 1] == [e] + events[1..][..r.consumed];
        FailuresAppend([e], events[1..][..r.consumed]);
      }
    } else {
      assert events[..0] == [];
    }
  }

  /** The eleventh failed accept closes the client, however many successful
      accepts came before it: a loop whose eleventh failure is its last event
      consumes every event and closes the client there. */
  lemma EleventhFailureClosesClient(events: seq<AcceptEvent>)
    requires Failures(events) == MaxFailedAccepts + 1
    requires |events| > 0 && events[|events| - 1] == AcceptFailed
    ensures RunAccept(AcceptStart, events)
              == AcceptRun(AcceptLoop(MaxFailedAccepts + 1, Successes(events), true), |events|)
  {
    RunAcceptCounts(AcceptStart, events);
    var r := RunAccept(AcceptStart, events);
    var n := |events|;
    if r.consumed < n {
      var k := r.consumed;
      assert events == events[..k] + events[k..];
      FailuresAppend(events[..k], events[k..]);
      assert events[k..] == events[k..n - 1] + [AcceptFailed];
      FailuresAppend(events[k..n - 1], [AcceptFailed]);
      assert false;
    }
    assert events[..n] == events;
  }

  /** A loop that has seen at most ten failures is still running however many
      connections it has accepted. */
  lemma TenFailuresTolerated(events: seq<AcceptEvent>)
    requires Failures(events) <= MaxFailedAccepts
    ensures var r := RunAccept(AcceptStart, events);
            !r.state.clientClosed && r.consumed == |events| &&
            r.state.served == Successes(events)
  {
    RunAcceptCounts(AcceptStart, events);
    assert events[..|events|] == events;
  }

  /** The events a listener produces: a nil listener fails every accept,
      whatever the peers do. */
  function AcceptEvents(l: Listener, offered: seq<AcceptEvent>): (events: seq<AcceptEvent>)
    ensures |events| == |offered|
    ensures l == NilListener ==> forall i :: 0 <= i < |events| ==> events[i] == AcceptFailed
    ensures l == LiveListener ==> events == offered
  {
    if l == NilListener then seq(|offered|, _ => AcceptFailed) else offered
  }

  lemma {:induction false} AllFailures(events: seq<AcceptEvent>)
    requires forall i :: 0 <= i < |events| ==> events[i] == AcceptFailed
    ensures Failures(events) == |events| && Successes(events) == 0
    decreases |events|
  {
    if |events| > 0 {
      AllFailures(events[1..]);
    }
  }

  /** A nil listener's loop closes the SSH client after exactly eleven
      accept calls, serving nobody. */
  lemma NilListenerClosesClient(offered: seq<AcceptEvent>)
    requires |offered| > MaxFailedAccepts
    ensures var r := RunAccept(AcceptStart, AcceptEvents(NilListener, offered));
            r.state.clientClosed && r.consumed == MaxFailedAccepts + 1 && r.state.served == 0
  {
    var events := AcceptEvents(NilListener, offered);
    AllFailures(events);
    RunAcceptCounts(AcceptStart, events);
    var r := RunAccept(AcceptStart, events);
    AllFailures(events[..r.consumed]);
  }

  /** As written, an Ltr mapping whose local port cannot be bound is reported
      forwarded, and the loop it starts closes the SSH client after eleven
      immediate accept failures; the checked version reports it not
      forwarded and starts nothing. */
  lemma LtrBindFailureReportedForwarded(rAddr: TcpAddr, lAddr: TcpAddr, probe: ProbeEnv, offered: seq<AcceptEvent>)
    requires |offered| > MaxFailedAccepts
    ensures var r := Forward(rAddr, lAddr, Ltr, ForwardEnv(probe, false));
            r.Forwarded? && r.loop.Some? &&
            RunAccept(AcceptStart, AcceptEvents(r.loop.value, offered)).state.clientClosed
    ensures ForwardChecked(rAddr, lAddr, Ltr, ForwardEnv(probe, false)) == NotForwarded(ListenFailed)
  {
    NilListenerClosesClient(offered);
  }
}
