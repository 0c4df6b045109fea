/** The supervision loop of `src/main.go` (`run`): the authentication
    methods built from the configured credentials, the registry of
    forwarded mappings (`portsMap` and `successForwardCount`), the connect
    step (`createClientTask`), one iteration of the loop (`mainTask`) with
    its reconciliation pass and its choice of delay, and runs of many
    iterations.

    Goroutines, channels and sleeps become a sequential step function: each
    iteration receives the outcomes it would observe (`TaskOracle`) and
    returns the next state and the delay it sleeps. */
module Supervisor {
  import opened Options
  import opened PortForward
  import opened Configuration

  // ---------------------------------------------------------------------
  // Authentication methods
  // ---------------------------------------------------------------------

  /** What reading and parsing the configured private key file gave. */
  datatype KeyLoad = KeyLoaded(signer: string) | KeyUnreadable | KeyUnparsable

  /** `ssh.PublicKeys(signer)` and `ssh.Password(secret)`. */
  datatype AuthMethod = PublicKeys(signer: string) | Password(secret: string)

  /** The ways the process stops itself (`log.Fatal`, or a panic). */
  datatype Fatal =
    | CannotReadKey                                   // the key file cannot be read
    | CannotParseKey                                  // the key file does not hold a private key
    | NoAuthMethods                                   // no key file and no password
    | AuthRejected                                    // dial error is `ssh.ErrNoAuth`
    | ProbeAborted(index: nat, failure: ProbeFailure) // the port probe of mapping `index`

  /** The authentication list: the public-key method when a key file is
      configured, then the password method when a password is; a key file
      that cannot be read or parsed, or an empty list, is fatal. */
  function AuthMethods(server: ServerConfig, key: KeyLoad): (r: Result<seq<AuthMethod>, Fatal>)
    ensures server.keyfile.Some? && key == KeyUnreadable ==> r == Failure(CannotReadKey)
    ensures server.keyfile.Some? && key == KeyUnparsable ==> r == Failure(CannotParseKey)
    ensures server.keyfile.None? && server.password.None? ==> r == Failure(NoAuthMethods)
    ensures r.Success? <==> (server.keyfile.Some? && key.KeyLoaded?) || (server.keyfile.None? && server.password.Some?)
    ensures r.Success? ==>
              && |r.value| == (if server.keyfile.Some? then 1 else 0) + (if server.password.Some? then 1 else 0)
              && (server.keyfile.Some? ==> r.value[0] == PublicKeys(key.signer))
              && (server.password.Some? ==> r.value[|r.value| - 1] == Password(server.password.value))
  {
    if server.keyfile.Some? && key == KeyUnreadable then Failure(CannotReadKey)
    else if server.keyfile.Some? && key == KeyUnparsable then Failure(CannotParseKey)
    else
      var keyed := if server.keyfile.Some? then [PublicKeys(key.signer)] else [];
      var auth := keyed + (if server.password.Some? then [Password(server.password.value)] else []);
      if |auth| == 0 then Failure(NoAuthMethods) else Success(auth)
  }

  // ---------------------------------------------------------------------
  // Registry of forwarded mappings
  // ---------------------------------------------------------------------

  /** `portsMap` (index to forwarded flag) and `successForwardCount`. */
  datatype Registry = Registry(forwarded: seq<bool>, count: nat)

  /** Number of `true` entries. */
  function CountTrue(bs: seq<bool>): nat
  {
    if |bs| == 0 then 0 else (if bs[0] then 1 else 0) + CountTrue(bs[1..])
  }

  /** The registry covers `n` mappings and its count is the number of
      forwarded ones. */
  ghost predicate Consistent(r: Registry, n: nat)
  {
    |r.forwarded| == n && r.count == CountTrue(r.forwarded)
  }

  lemma {:induction false} CountTrueBounds(bs: seq<bool>)
    ensures CountTrue(bs) <= |bs|
    ensures CountTrue(bs) == 0 <==> forall i :: 0 <= i < |bs| ==> !bs[i]
    ensures CountTrue(bs) == |bs| <==> forall i :: 0 <= i < |bs| ==> bs[i]
    decreases |bs|
  {
    if |bs| > 0 {
      CountTrueBounds(bs[1..]);
      assert forall i :: 1 <= i < |bs| ==> bs[i] == bs[1..][i - 1];
    }
  }

  /** Setting one unset entry adds exactly one to the count. */
  lemma {:induction false} CountTrueSet(bs: seq<bool>, i: nat)
    requires i < |bs| && !bs[i]
    ensures CountTrue(bs[i := true]) == CountTrue(bs) + 1
    decreases |bs|
  {
    if i > 0 {
      assert bs[i := true][1..] == bs[1..][i - 1 := true];
      CountTrueSet(bs[1..], i - 1);
    }
  }

  /** Every mapping unforwarded and the count zero: the registry as `run`
      creates it and as every successful connect resets it. */
  function FreshRegistry(n: nat): (r: Registry)
    ensures Consistent(r, n) && r.count == 0
    ensures forall i :: 0 <= i < n ==> !r.forwarded[i]
  {
    var r := Registry(seq(n, _ => false), 0);
    CountTrueBounds(r.forwarded);
    r
  }

  /** What a reconciliation pass did: the registry it left and the indices it
      called `forward` for, or the index whose probe stopped the process. */
  datatype PassResult =
    | PassDone(registry: Registry, attempted: seq<nat>)
    | PassAborted(index: nat, failure: ProbeFailure)

  /** The reconciliation loop from index `i` on: skip forwarded entries, call
      `forward` (whose result is `results[j]`) for the others, and on success
      mark the entry and count it once. The pass completes unless the probe
      of an unforwarded entry stops the process, and then it stops at the
      first such entry. `ReconcileAttempts` and `ReconcileCount` state which
      indices it calls `forward` for and how it moves the count. */
  function ReconcileFrom(r: Registry, results: seq<ForwardResult>, i: nat): (p: PassResult)
    requires |results| == |r.forwarded| && i <= |r.forwarded|
    ensures p.PassDone? <==>
              forall j :: i <= j < |r.forwarded| && !r.forwarded[j] ==> !results[j].ForwardAborted?
    ensures p.PassDone? ==>
              && |p.registry.forwarded| == |r.forwarded|
              && (forall j :: 0 <= j < |r.forwarded| ==>
                    p.registry.forwarded[j] == (r.forwarded[j] || (i <= j && results[j].Forwarded?)))
    ensures p.PassAborted? ==>
              && i <= p.index < |r.forwarded|
              && !r.forwarded[p.index]
              && results[p.index] == ForwardAborted(p.failure)
              && forall j :: i <= j < p.index && !r.forwarded[j] ==> !results[j].ForwardAborted?
    decreases |r.forwarded| - i
  {
    if i == |r.forwarded| then PassDone(r, [])
    else if r.forwarded[i] then ReconcileFrom(r, results, i + 1)
    else
      match results[i]
      case ForwardAborted(f) => PassAborted(i, f)
      case NotForwarded(_) =>
        var p := ReconcileFrom(r, results, i + 1);
        if p.PassAborted? then p else PassDone(p.registry, [i] + p.attempted)
      case Forwarded(_) =>
        var p := ReconcileFrom(Registry(r.forwarded[i := true], r.count + 1), results, i + 1);
        if p.PassAborted? then p else PassDone(p.registry, [i] + p.attempted)
  }

  /** The registry the pass continues with after handling entry `i`. */
  function AfterEntry(r: Registry, results: seq<ForwardResult>, i: nat): Registry
    requires |results| == |r.forwarded| && i < |r.forwarded|
  {
    if !r.forwarded[i] && results[i].Forwarded? then Registry(r.forwarded[i := true], r.count + 1) else r
  }

  /** A completed pass calls `forward` exactly for the entries from `i` on
      that were not forwarded. */
  lemma {:induction false} ReconcileAttempts(r: Registry, results: seq<ForwardResult>, i: nat)
    requires |results| == |r.forwarded| && i <= |r.forwarded|
    ensures var p := ReconcileFrom(r, results, i);
            p.PassDone? ==> forall j :: j in p.attempted <==> i <= j < |r.forwarded| && !r.forwarded[j]
    decreases |r.forwarded| - i
  {
    if i < |r.forwarded| {
      var next := AfterEntry(r, results, i);
      ReconcileAttempts(next, results, i + 1);
      assert forall j :: i < j < |r.forwarded| ==> next.forwarded[j] == r.forwarded[j];
    }
  }

  /** A completed pass calls `forward` for each index once, in increasing
      order. */
  lemma {:induction false} ReconcileInOrder(r: Registry, results: seq<ForwardResult>, i: nat)
    requires |results| == |r.forwarded| && i <= |r.forwarded|
    ensures var p := ReconcileFrom(r, results, i);
            p.PassDone? ==> forall a, b :: 0 <= a < b < |p.attempted| ==> p.attempted[a] < p.attempted[b]
    decreases |r.forwarded| - i
  {
    if i < |r.forwarded| {
      var next := AfterEntry(r, results, i);
      ReconcileInOrder(next, results, i + 1);
      ReconcileAttempts(next, results, i + 1);
      var q := ReconcileFrom(next, results, i + 1);
      if q.PassDone? {
        assert forall k :: 0 <= k < |q.attempted| ==> q.attempted[k] in q.attempted;
      }
    }
  }

  /** A completed pass raises the count by exactly the number of entries it
      newly marked. */
  lemma {:induction false} ReconcileCount(r: Registry, results: seq<ForwardResult>, i: nat)
    requires |results| == |r.forwarded| && i <= |r.forwarded|
    ensures var p := ReconcileFrom(r, results, i);
            p.PassDone? ==>
              p.registry.count + CountTrue(r.forwarded) == r.count + CountTrue(p.registry.forwarded)
    decreases |r.forwarded| - i
  {
    if i < |r.forwarded| {
      if !r.forwarded[i] && results[i].Forwarded? {
        CountTrueSet(r.forwarded, i);
      }
      ReconcileCount(AfterEntry(r, results, i), results, i + 1);
    }
  }

  /** A pass keeps the registry consistent. */
  lemma ReconcileKeepsConsistent(r: Registry, results: seq<ForwardResult>, n: nat)
    requires |r.forwarded| == n && |results| == n
    ensures var p := ReconcileFrom(r, results, 0);
            Consistent(r, n) && p.PassDone? ==> Consistent(p.registry, n) && p.registry.count <= n
  {
    ReconcileCount(r, results, 0);
    var p := ReconcileFrom(r, results, 0);
    if p.PassDone? {
      CountTrueBounds(p.registry.forwarded);
    }
  }

  lemma NoMembersEmpty(s: seq<nat>)
    ensures (forall j :: j !in s) ==> s == []
  {
    if |s| > 0 {
      assert s[0] in s;
    }
  }

  /** A pass over a fully forwarded registry calls `forward` for no index and
      changes nothing, so the count guard in front of it only saves the scan. */
  lemma FullRegistryPassIsNoop(r: Registry, results: seq<ForwardResult>, n: nat)
    requires Consistent(r, n) && r.count == n && |results| == n
    ensures ReconcileFrom(r, results, 0) == PassDone(r, [])
  {
    CountTrueBounds(r.forwarded);
    ReconcileAttempts(r, results, 0);
    ReconcileCount(r, results, 0);
    var p := ReconcileFrom(r, results, 0);
    assert p.PassDone?;
    assert p.registry.forwarded == r.forwarded;
    assert forall j :: j !in p.attempted;
    NoMembersEmpty(p.attempted);
  }

  // ---------------------------------------------------------------------
  // One iteration of the loop
  // ---------------------------------------------------------------------

  /** Delay after a failed connect or a closed client. */
  const ReconnectDelay: nat := 10
  /** Delay after a pass that left every mapping forwarded. */
  const SettledDelay: nat := 10
  /** Delay after a pass that left some mapping unforwarded. */
  const RetryDelay: nat := 5

  /** The supervisor's state: whether it holds a client (`p.client != nil`)
      and the registry. */
  datatype LoopState = LoopState(connected: bool, registry: Registry)

  /** What `ssh.Dial` returned: a client, or an error that is or is not
      `ssh.ErrNoAuth`. */
  datatype DialOutcome = Dialled | DialFailed(noAuth: bool)

  /** What one iteration observes: the dial outcome (used only when there is
      no client), whether a client-closed signal is pending at the `select`,
      and what `forward` returns for each mapping. */
  datatype TaskOracle = TaskOracle(dial: DialOutcome, closeSignalled: bool, forwards: seq<ForwardResult>)

  /** An iteration's result: the next state, the delay slept, and the
      mapping indices `forward` was called for; or the end of the process. */
  datatype Step =
    | Continue(next: LoopState, delay: nat, attempted: seq<nat>)
    | Terminate(reason: Fatal)

  /** `createClientTask`'s outcomes. */
  datatype Connection = Connected(state: LoopState) | ConnectFailed | ConnectFatal

  /** `createClientTask`: on a successful dial, hold the client and reset
      every registry entry and the count; an `ErrNoAuth` error is fatal; any
      other error reports failure and leaves everything as it was. */
  function CreateClient(s: LoopState, n: nat, dial: DialOutcome): (c: Connection)
    ensures c.Connected? <==> dial.Dialled?
    ensures c.ConnectFatal? <==> dial == DialFailed(true)
    ensures c.Connected? ==>
              && c.state.connected
              && Consistent(c.state.registry, n)
              && c.state.registry.count == 0
              && forall i :: 0 <= i < n ==> !c.state.registry.forwarded[i]
  {
    match dial
    case DialFailed(noAuth) => if noAuth then ConnectFatal else ConnectFailed
    case Dialled => Connected(LoopState(true, FreshRegistry(n)))
  }

  /** `mainTask`: connect if there is no client (a failure sleeps the
      reconnect delay); then, if the client was closed, drop it and sleep the
      reconnect delay; otherwise run a pass when some mapping is unforwarded
      and sleep the long delay when all are forwarded, the short one when
      not. On a held client the pass calls `forward` for exactly the
      unforwarded mappings, marks every success, and ends the process only
      when a probe stops it; a fresh connect starts that pass from an
      all-unforwarded registry. */
  function MainTask(n: nat, s: LoopState, o: TaskOracle): (step: Step)
    requires |s.registry.forwarded| == n && |o.forwards| == n
    ensures step == Terminate(AuthRejected) <==> !s.connected && o.dial == DialFailed(true)
    ensures step.Terminate? && step.reason.ProbeAborted? ==>
              step.reason.index < n && o.forwards[step.reason.index].ForwardAborted?
    ensures !s.connected && o.dial == DialFailed(false) ==> step == Continue(s, ReconnectDelay, [])
    ensures !s.connected && o.dial.Dialled? && o.closeSignalled ==>
              step == Continue(LoopState(false, FreshRegistry(n)), ReconnectDelay, [])
    ensures step.Terminate? && step.reason.ProbeAborted? ==>
              o.forwards[step.reason.index] == ForwardAborted(step.reason.failure)
    ensures (s.connected || o.dial.Dialled?) && o.closeSignalled ==>
              && step.Continue? && !step.next.connected
              && step.delay == ReconnectDelay && step.attempted == []
              && (s.connected ==> step.next.registry == s.registry)
    ensures (s.connected || o.dial.Dialled?) && !o.closeSignalled && step.Continue? ==>
              && step.next.connected
              && (step.delay == SettledDelay <==> step.next.registry.count == n)
              && (step.delay == RetryDelay <==> step.next.registry.count != n)
    ensures step.Continue? ==> |step.next.registry.forwarded| == n
    ensures step.Continue? ==> step.delay == ReconnectDelay || step.delay == RetryDelay
    ensures step.Continue? && Consistent(s.registry, n) ==> Consistent(step.next.registry, n)
    ensures step.Continue? ==> forall a, b :: 0 <= a < b < |step.attempted| ==> step.attempted[a] < step.attempted[b]
    ensures s.connected && step.Continue? ==>
              && (forall j :: j in step.attempted ==> j < n && !s.registry.forwarded[j])
              && (forall j :: 0 <= j < n && s.registry.forwarded[j] ==> step.next.registry.forwarded[j])
    ensures ((s.connected && Consistent(s.registry, n)) || (!s.connected && o.dial.Dialled?)) && !o.closeSignalled ==>
              var before := if s.connected then s.registry.forwarded else FreshRegistry(n).forwarded;
              && (step.Terminate? ==>
                    && step.reason.ProbeAborted?
                    && !before[step.reason.index]
                    && forall j :: 0 <= j < step.reason.index && !before[j] ==> !o.forwards[j].ForwardAborted?)
              && (step.Continue? <==> forall j :: 0 <= j < n && !before[j] ==> !o.forwards[j].ForwardAborted?)
              && (step.Continue? ==>
                    && (forall j :: j in step.attempted <==> 0 <= j < n && !before[j])
                    && forall j :: 0 <= j < n ==>
                         step.next.registry.forwarded[j] == (before[j] || o.forwards[j].Forwarded?))
  {
    var c := if s.connected then Connected(s) else CreateClient(s, n, o.dial);
    match c
    case ConnectFatal => Terminate(AuthRejected)
    case ConnectFailed => Continue(s, ReconnectDelay, [])
    case Connected(t) =>
      if o.closeSignalled then Continue(LoopState(false, t.registry), ReconnectDelay, [])
      else
        var pass := if t.registry.count < n then ReconcileFrom(t.registry, o.forwards, 0)
                    else PassDone(t.registry, []);
        ReconcileKeepsConsistent(t.registry, o.forwards, n);
        ReconcileAttempts(t.registry, o.forwards, 0);
        ReconcileInOrder(t.registry, o.forwards, 0);
        CountTrueBounds(t.registry.forwarded);
        match pass
        case PassAborted(i, f) => Terminate(ProbeAborted(i, f))
        case PassDone(reg, attempted) =>
          Continue(LoopState(true, reg), if reg.count == n then SettledDelay else RetryDelay, attempted)
  }

  /** Once every mapping is forwarded, an iteration calls `forward` for none
      of them, changes nothing and sleeps the long delay. */
  lemma FullyForwardedIsIdle(n: nat, s: LoopState, o: TaskOracle)
    requires s.connected && Consistent(s.registry, n) && s.registry.count == n
    requires |o.forwards| == n && !o.closeSignalled
    ensures MainTask(n, s, o) == Continue(s, SettledDelay, [])
  {
  }

  /** When every `forward` succeeds, one iteration forwards every mapping and
      then sleeps the long delay. */
  lemma AllSuccessesSettle(n: nat, s: LoopState, o: TaskOracle)
    requires (s.connected && Consistent(s.registry, n)) || (!s.connected && o.dial.Dialled?)
    requires |s.registry.forwarded| == n && |o.forwards| == n && !o.closeSignalled
    requires forall j :: 0 <= j < n ==> o.forwards[j].Forwarded?
    ensures var step := MainTask(n, s, o);
            && step.Continue? && step.next.connected && step.delay == SettledDelay
            && forall j :: 0 <= j < n ==> step.next.registry.forwarded[j]
  {
    var t := if s.connected then s else LoopState(true, FreshRegistry(n));
    CountTrueBounds(t.registry.forwarded);
    if t.registry.count < n {
      var p := ReconcileFrom(t.registry, o.forwards, 0);
      assert p.PassDone?;
      ReconcileKeepsConsistent(t.registry, o.forwards, n);
      assert forall j :: 0 <= j < n ==> p.registry.forwarded[j];
      CountTrueBounds(p.registry.forwarded);
    }
  }

  // ---------------------------------------------------------------------
  // Start-up and runs of the loop
  // ---------------------------------------------------------------------

  /** The authentication list and the state the loop starts from. */
  datatype Boot = Boot(auth: seq<AuthMethod>, state: LoopState)

  /** The start of `run`: build the authentication list (stopping before any
      dial when it cannot be built) and the initial registry. */
  function Start(cfg: Config, key: KeyLoad): (b: Result<Boot, Fatal>)
    ensures b.Failure? <==> AuthMethods(cfg.server, key).Failure?
    ensures cfg.server.keyfile.None? && cfg.server.password.None? ==> b == Failure(NoAuthMethods)
    ensures b.Failure? ==> b.error == AuthMethods(cfg.server, key).error
    ensures b.Success? ==>
              && b.value.auth == AuthMethods(cfg.server, key).value
              && |b.value.auth| > 0
              && !b.value.state.connected
              && Consistent(b.value.state.registry, |cfg.mappings|)
              && forall i :: 0 <= i < |cfg.mappings| ==> !b.value.state.registry.forwarded[i]
  {
    match AuthMethods(cfg.server, key)
    case Failure(f) => Failure(f)
    case Success(auth) => Success(Boot(auth, LoopState(false, FreshRegistry(|cfg.mappings|))))
  }

  /** The loop after some iterations: the state, the time slept, the
      iterations run, and the reason it stopped, if it did. */
  datatype Trace = Trace(state: LoopState, elapsed: nat, steps: nat, halted: Option<Fatal>)

  /** Iterations run back to back, one per oracle, until one is fatal. The
      registry stays consistent, and every iteration that does not end the
      process sleeps at least the short delay, so the loop never spins. */
  function Supervise(n: nat, s: LoopState, oracles: seq<TaskOracle>): (t: Trace)
    requires |s.registry.forwarded| == n
    requires forall k :: 0 <= k < |oracles| ==> |oracles[k].forwards| == n
    ensures t.steps <= |oracles|
    ensures t.halted.None? ==> t.steps == |oracles|
    ensures t.halted.Some? ==> t.steps > 0
    ensures t.elapsed >= RetryDelay * (if t.halted.Some? then t.steps - 1 else t.steps)
    ensures |t.state.registry.forwarded| == n
    ensures Consistent(s.registry, n) ==> Consistent(t.state.registry, n)
    ensures |oracles| == 0 ==> t == Trace(s, 0, 0, None)
    ensures |oracles| > 0 && MainTask(n, s, oracles[0]).Terminate? ==>
              t == Trace(s, 0, 1, Some(MainTask(n, s, oracles[0]).reason))
    ensures |oracles| == 1 && MainTask(n, s, oracles[0]).Continue? ==>
              t == Trace(MainTask(n, s, oracles[0]).next, MainTask(n, s, oracles[0]).delay, 1, None)
    decreases |oracles|
  {
    if |oracles| == 0 then Trace(s, 0, 0, None)
    else
      match MainTask(n, s, oracles[0])
      case Terminate(f) => Trace(s, 0, 1, Some(f))
      case Continue(next, delay, _) =>
        var t := Supervise(n, next, oracles[1..]);
        Trace(t.state, t.elapsed + delay, t.steps + 1, t.halted)
  }

  /** Running the oracles `a` and then `b` is running `a` and, unless that
      ended the process, continuing from where it stopped with `b`: the
      times slept and the iterations add up. */
  lemma {:induction false} SuperviseAppend(n: nat, s: LoopState, a: seq<TaskOracle>, b: seq<TaskOracle>)
    requires |s.registry.forwarded| == n
    requires forall k :: 0 <= k < |a| ==> |a[k].forwards| == n
    requires forall k :: 0 <= k < |b| ==> |b[k].forwards| == n
    ensures forall k :: 0 <= k < |a + b| ==> |(a + b)[k].forwards| == n
    ensures var ta := Supervise(n, s, a);
            var tab := Supervise(n, s, a + b);
            && (ta.halted.Some? ==> tab == ta)
            && (ta.halted.None? ==>
                  var tb := Supervise(n, ta.state, b);
                  tab == Trace(tb.state, ta.elapsed + tb.elapsed, ta.steps + tb.steps, tb.halted))
    decreases |a|
  {
    if |a| == 0 {
      assert a + b == b;
    } else {
      assert (a + b)[0] == a[0];
      assert (a + b)[1..] == a[1..] + b;
      match MainTask(n, s, a[0])
      case Terminate(_) =>
      case Continue(next, _, _) =>
        SuperviseAppend(n, next, a[1..], b);
    }
  }
}
