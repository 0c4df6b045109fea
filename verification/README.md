# win-autossh: a Dafny model of the forwarding supervisor

win-autossh keeps one SSH client connected to a server and forwards a list of
TCP port mappings over it, remote-to-local (`rtl`) and local-to-remote (`ltr`).
This project models the bookkeeping and decision layer of that program and
proves properties of it:

- **Mapping-list parsing** (`src/config.go`, module `Configuration`): a
  `"local,remote"` string becomes an `AddressPair` tagged with its mode; bad
  strings are dropped; the rtl list comes before the ltr list; the optional
  password and key file are recorded when their keys exist.
  `net.ResolveTCPAddr` is a parameter (`Net.Resolver`), an uninterpreted
  partial function.
- **Per-mapping forwarding decisions** (`src/portforward.go`, module
  `PortForward`): the forwarding modes, the remote-port probe
  `checkRemotePortAvailable`, what `forward` returns in each mode, and the
  failure counter of the accept loop `forward` starts.
- **Supervision** (`src/main.go`, module `Supervisor`): the authentication
  list, the registry `portsMap` / `successForwardCount`, `createClientTask`,
  one iteration of `mainTask` with its reconciliation pass and its delay, and
  runs of many iterations.

Supporting modules: `Options` (nil-or-value and value-or-error), `Net`
(`TcpAddr`, `Resolver`), and `Text` (`strings.Split`, `strings.Contains` and
`%d` formatting, each with an independent characterisation).

Everything the program does through SSH, sockets, goroutines and sleeps
arrives as a parameter. The dial result, the pending client-closed signal and
what `forward` returned for each mapping come in a `TaskOracle`. The probe's
session and command outcome come in a `ProbeEnv`, the listen outcome in a
`ForwardEnv`, and each accept outcome is an `AcceptEvent`. Time is the delay
an iteration returns.

Some of the program's behaviour differs from what one might expect of an
autossh-style supervisor, and the model states it as the code has it:

- A successful accept does not reset the accept loop's failure counter. The
  loop closes the client on the eleventh failure overall, not the eleventh in
  a row (`RunAcceptCounts`).
- The remote-port probe never reports a port as occupied. It answers
  "available" or stops the process (`CheckRemotePortAvailable`). So an Rtl
  mapping is refused only when the remote listen fails, never because the probe
  found the port in use.
- The accept loop has no separate check for a closed client. An Rtl loop
  accepts on a listener the SSH client opened on the server, so a closed
  client shows up there as failed accepts. An Ltr loop accepts on a local
  socket from `net.ListenTCP` (src/portforward.go:64), which keeps accepting
  after the client is gone. Only the per-connection `client.DialTCP` fails
  (src/portforward.go:152), so a closed client does not make that loop exit, and it
  keeps its local port bound.
- In Ltr mode a failed listen still reports success (see Findings).

## Model

| member | source | states |
|---|---|---|
| PortForward.ModesDistinct | src/portforward.go:12-17 | Rtl is 0 and Ltr is 1, so the two modes are distinct |
| Text.SplitInTwo | src/config.go:24-27 | the split yields exactly two parts iff the string has exactly one comma; the parts are then the text before the comma and the text after it |
| Text.JoinSplit | src/config.go:24 | splitting loses nothing: joining the parts with the separator gives back the input |
| Configuration.StrToAddressPair | src/config.go:20-39 | the mode is recorded on every path; any comma count other than one gives the part-count error; the local part resolves from the text before the comma and the remote part from the text after it; if the local part fails, its error is reported and both addresses stay nil; if only the remote fails, the resolved local address is kept |
| Configuration.ToAddressPair | src/config.go:40-52 | the result is no longer than the input; every element carries the given mode and both addresses; every input that parses is present; nothing is dropped iff every input parses |
| Configuration.ToAddressPairSound | src/config.go:40-52 | every element of the result is the error-free parse of some input string |
| Configuration.ToAddressPairAppend | src/config.go:40-52 | the result for a concatenation is the concatenation of the results, so input order is kept |
| Configuration.ToAddressPairSingle | src/config.go:42-48 | one string contributes its pair if it parses and nothing otherwise |
| Configuration.OptionalString | src/config.go:108-119 | the value is present iff its key is in the configuration, and then it is the configured string |
| Configuration.ConcatKeepsModesApart | src/config.go:105 | appending the ltr pairs to the rtl pairs puts every Rtl entry before every Ltr entry and keeps the rtl pairs as the prefix |
| Configuration.ReadConfig | src/config.go:103-119 | every mapping is resolved and is Rtl or Ltr; no Ltr entry precedes an Rtl entry; there are at most as many mappings as configured strings; password and key file are present iff their keys exist, with the configured values; the server address and user are the configured strings |
| Configuration.ReadConfigMappingOrder | src/config.go:103-105 | the mappings are the rtl pairs in order followed by the ltr pairs in order |
| Text.ParseDecimalOfDecimal | src/portforward.go:113 | the port printed with %d parses back to the same number |
| PortForward.ProbeCommandNamesPort | src/portforward.go:113 | the probe command is the fixed netstat/grep text around the port in decimal, and the port can be read back from it |
| PortForward.ProbeCommandInjective | src/portforward.go:113 | different ports give different probe commands |
| PortForward.CheckRemotePortAvailable | src/portforward.go:104-124 | never answers false; port 0 answers true without sending a command; otherwise the command is sent iff a session was opened; the process stops iff the port is non-zero and there is no session or the command error lacks "exited with status 1" |
| Text.ContainsOccurs | src/portforward.go:118 | the left-to-right substring scan succeeds iff the needle occurs at some position |
| PortForward.ExitStatusAccepted | src/portforward.go:115-121 | for an SSH exit error, the substring test accepts exactly the statuses whose decimal form begins with 1 (1, 10-19, 100-199, ...) |
| PortForward.GrepStatusesOnProbe | src/portforward.go:115-123 | grep's no-match status 1 means available; status 2 stops the process |
| PortForward.Forward | src/portforward.go:20-100 | in Rtl mode a probe that stops the process makes `forward` stop with that failure; false only in Rtl mode and only for a failed remote listen; Rtl with a successful probe succeeds iff the listen succeeds, on a live listener; the probe can abort only in Rtl mode and never for port 0; Ltr always succeeds, on a nil listener iff the listen failed; any other mode succeeds and starts nothing |
| PortForward.AcceptStep | src/portforward.go:44-58 | a success serves one connection and leaves the failure count unchanged; a failure adds one; the client is closed exactly when a failure takes the count past 10 |
| PortForward.RunAcceptCounts | src/portforward.go:43-61 | the count equals the failures seen and is never reset; the loop closes the client iff the failures exceed 10, stopping at the eleventh failure; otherwise it consumes every event |
| PortForward.EleventhFailureClosesClient | src/portforward.go:47-56 | a run whose eleventh failure is its last event consumes all events, serves every success and closes the client there |
| PortForward.TenFailuresTolerated | src/portforward.go:44-61 | with at most ten failures the loop keeps running and serves every successful accept |
| PortForward.NilListenerClosesClient | src/portforward.go:77-90 | the loop on a nil listener closes the client after exactly eleven accept calls, serving nobody |
| PortForward.LtrBindFailureReportedForwarded | src/portforward.go:63-69 | an Ltr mapping whose listen fails is reported forwarded, and its loop closes the SSH client |
| PortForward.ForwardChecked | src/portforward.go:22-34 | corrected forward: in Rtl and Ltr mode success always means a live listener; in Ltr mode it succeeds iff the listen succeeded; other modes behave as written |
| Supervisor.AuthMethods | src/main.go:39-58 | the public-key method comes first when a key file is configured, then the password method; the list length is the number of configured credentials; an unreadable or unparsable key and an empty list are fatal |
| Supervisor.FreshRegistry | src/main.go:73-81 | every index maps to false, the count is 0 and the registry is consistent |
| Supervisor.CountTrueSet | src/main.go:127-130 | marking one unforwarded entry raises the number of true entries by exactly one |
| Supervisor.ReconcileFrom | src/main.go:121-131 | the pass completes iff no unforwarded entry's probe stops the process, and otherwise stops at the first such entry; after a completed pass an entry is true iff it was true or its forward succeeded |
| Supervisor.ReconcileAttempts | src/main.go:122-126 | a completed pass calls forward exactly for the indices that were not forwarded |
| Supervisor.ReconcileInOrder | src/main.go:122 | a completed pass calls forward for each index once, in increasing order |
| Supervisor.ReconcileCount | src/main.go:127-130 | a completed pass raises the count by exactly the number of newly true entries |
| Supervisor.ReconcileKeepsConsistent | src/main.go:121-131 | after a pass the count still equals the number of true entries and is at most the number of mappings |
| Supervisor.FullRegistryPassIsNoop | src/main.go:121-131 | over a fully forwarded registry a pass calls forward for no index and changes nothing |
| Supervisor.CreateClient | src/main.go:82-102 | a successful dial holds the client and resets every entry to false and the count to 0; an ErrNoAuth error is fatal; any other error only reports failure |
| Supervisor.MainTask | src/main.go:103-142 | ErrNoAuth is fatal; another dial error leaves the state alone and waits 10; a pending close drops the client and waits 10, keeping the registry it had, which after a fresh connect is the reset all-false one; otherwise the delay is 10 iff every mapping is forwarded and 5 if not; already forwarded indices are never retried and stay forwarded; the attempted indices are strictly increasing, so none is tried twice; consistency is preserved. On a held consistent client, or after a fresh connect from an all-false registry, forward is called exactly for the unforwarded indices, an entry ends true iff it was true or its forward succeeded, and the process ends only at the first unforwarded index whose probe stops it, with that probe's failure |
| Supervisor.FullyForwardedIsIdle | src/main.go:121-139 | when every mapping is forwarded, an iteration calls forward for none, changes nothing and waits 10 |
| Supervisor.AllSuccessesSettle | src/main.go:91-139 | when every forward succeeds, one iteration after a connect, or on a consistent connected state, forwards every mapping and waits 10 |
| Supervisor.Start | src/main.go:39-81 | start-up fails iff the authentication list cannot be built, with that list's failure reason, and with no credentials before any dial; it boots with exactly the built list; otherwise it starts disconnected with a consistent all-false registry |
| Supervisor.Supervise | src/main.go:143-154 | no oracle runs nothing; a fatal first iteration ends the run there with its reason and no sleep; a single non-fatal iteration gives that iteration's state and delay; the registry stays consistent; every non-fatal iteration sleeps at least 5, so the loop never spins |
| Supervisor.SuperviseAppend | src/main.go:143-154 | iterations run one per oracle until one is fatal: a run over two oracle sequences is the run over the first, unchanged if it halted, and otherwise continued from its final state over the second, with sleeps and iteration counts added |

## Left out

- SSH dialing, sessions, `ListenTCP` / `DialTCP` and `CombinedOutput` are library calls. Their outcomes are parameters.
- `copyBetween`, `copyConnToRemoteAddr` and `copyConnToLocalAddr` (src/portforward.go:126-170) are an `io.Copy` byte pump in goroutines. The model counts each successful accept as one served connection and stops there.
- Goroutines, channels and `time.Sleep` in `run` and `mainTask` become the sequential `MainTask`. After a failed connect the source's goroutine signals and then also falls into the `select`. That is a concurrency artefact and is not modelled: a failed connect ends the iteration.
- `Stop` and the service wrapper, flag parsing and `getWorkDir` (src/main.go:156-221) are OS and service plumbing.
- The viper YAML reading and the config-file search (src/config.go:66-101) are file-system I/O. The settings arrive as maps from dotted keys to values.
- src/log-config.go (log-file rotation) is file I/O and clock access.
- The internals of `net.ResolveTCPAddr` (host lookup, port ranges) are not modelled. It is an uninterpreted partial function.
- Logging is observability only and is not modelled.
- PortForward.ExitMessage: models only the plain "Process exited with status N" text. It leaves out the signal and reason suffixes the SSH library can append.
- Supervisor.MainTask: the forward results are parameters. The model does not tie a client-closed signal to the accept loops that close the client.

## Findings

| source | as written | input that shows it | evidently intended | confidence | as-written member | corrected member |
|---|---|---|---|---|---|---|
| src/portforward.go:63-69 | in Ltr mode a `net.ListenTCP` error is only logged. `forward` returns true and starts the accept loop on the nil listener. Its `Accept` fails at once every time, so the loop closes the SSH client after eleven calls | an Ltr mapping whose local port is already bound. After a reconnect, the previous connection's Ltr listener still holds that port | return false on a listen error, as the Rtl branch does, so the mapping stays unforwarded and is retried | high for the return value, medium for the reconnect consequence; not executed | PortForward.LtrBindFailureReportedForwarded | PortForward.ForwardChecked |

The supervision model takes `forward`'s results as parameters, so its
properties hold for either definition.
