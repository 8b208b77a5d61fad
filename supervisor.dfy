/**
 * main: after a start-up delay, connect to the broker with a bounded number of
 * attempts, then run the session loop that polls the MQTT socket until something
 * fails, then disconnect and reboot. The results of the library, socket and kernel
 * calls are inputs; the calls main makes are returned as a trace.
 */
module Supervisor {
  import opened Mqtt

  datatype Option<T> = None | Some(value: T)

  /** mqtt_conn_max_tries */
  const MaxTries: nat := 10
  /** The delay before every connect attempt but the first, in milliseconds. */
  const RetryDelay: nat := 5000
  /** The session loop counts its iterations up to this bound. */
  const IterationCap: nat := 300000

  /**
   * One pass of the connect loop: the sleep before it (none before the first), then
   * certificate_init, modem_configure, client_init and mqtt_connect, whose result
   * is recorded.
   */
  datatype AttemptLog = AttemptLog(delayMs: nat, result: int)

  /** The calls main makes after the connect loop. */
  datatype Call = FdsInit | InitUart | WorkQueueStart | MqttDisconnect | Reboot

  /**
   * The number of attempts made from attempt `k` on, when attempt `j`'s mqtt_connect
   * returns connect(j): up to the first success, and never more than MaxTries.
   */
  function AttemptsFrom(connect: nat -> int, k: nat): (n: nat)
    requires k < MaxTries
    ensures k < n <= MaxTries
    ensures forall j :: k <= j < n - 1 ==> connect(j) != 0
    ensures connect(n - 1) == 0 || n == MaxTries
    decreases MaxTries - k
  {
    if connect(k) == 0 || k + 1 == MaxTries then k + 1 else AttemptsFrom(connect, k + 1)
  }

  function Attempts(connect: nat -> int): (n: nat)
    ensures 1 <= n <= MaxTries
  {
    AttemptsFrom(connect, 0)
  }

  /** The connect loop ends with a connection. */
  predicate Connected(connect: nat -> int)
  {
    connect(Attempts(connect) - 1) == 0
  }

  /**
   * The do-while connect loop. mqtt_connect is called at least once and at most
   * MaxTries times, with a 5 s sleep before every attempt but the first, and the loop
   * stops at the first zero result; `err` is the last result.
   */
  method ConnectWithRetry(connect: nat -> int) returns (err: int, log: seq<AttemptLog>)
    ensures 1 <= |log| <= MaxTries
    ensures forall k :: 0 <= k < |log| ==> log[k].delayMs == (if k == 0 then 0 else RetryDelay)
    ensures forall k :: 0 <= k < |log| ==> log[k].result == connect(k)
    ensures forall k :: 0 <= k < |log| - 1 ==> log[k].result != 0
    ensures err == log[|log| - 1].result
    ensures err != 0 ==> |log| == MaxTries
    ensures |log| == Attempts(connect)
  {
    var attempts: nat := 0;
    log := [];
    while true
      invariant attempts < MaxTries && |log| == attempts
      invariant forall k :: 0 <= k < attempts ==> log[k] == AttemptLog(if k == 0 then 0 else RetryDelay, connect(k))
      invariant forall k :: 0 <= k < attempts ==> connect(k) != 0
      decreases MaxTries - attempts
    {
      var delay := 0;
      if attempts > 0 {
        delay := RetryDelay;
      }
      err := connect(attempts);
      log := log + [AttemptLog(delay, err)];
      attempts := attempts + 1;
      if !(err != 0 && attempts < MaxTries) {
        break;
      }
    }
  }

  /** What mqtt_live returns: 0, -EAGAIN, or another error. */
  datatype Live = Alive | Again | LiveError(err: Errno)

  /** What mqtt_input returns: 0 or an error. */
  datatype Input = InputOk | InputError(err: Errno)

  /**
   * One pass of the session loop: the return value of poll, the results of mqtt_live
   * and of mqtt_input (called only when POLLIN is set), and the POLLIN, POLLERR and
   * POLLNVAL bits of revents as each test reads them. mqtt_input can reach the
   * payload read, whose own poll rewrites revents before the POLLERR and POLLNVAL
   * tests, so the three bits are independent inputs.
   */
  datatype Tick = Tick(pollRet: int, pollIn: bool, pollErr: bool, pollNval: bool, live: Live, input: Input)

  /** Why the session loop breaks. */
  datatype Fault = PollFailed | LiveFailed(err: Errno) | InputFailed(err: Errno) | PollError | PollInvalid

  /** A pass that lets the loop go on. */
  predicate Healthy(t: Tick)
  {
    t.pollRet >= 0 && !t.live.LiveError? && (t.pollIn ==> t.input == InputOk) && !t.pollErr && !t.pollNval
  }

  /** The exit test of one pass, checks in the order the loop makes them. */
  function TickFault(t: Tick): (r: Option<Fault>)
    ensures r.None? <==> Healthy(t)
    ensures r == Some(PollFailed) <==> t.pollRet < 0
    ensures r.Some? && r.value.LiveFailed? ==> t.pollRet >= 0 && t.live == LiveError(r.value.err)
    ensures r.Some? && r.value.InputFailed? ==> t.pollIn && t.input == InputError(r.value.err) && !t.live.LiveError?
    ensures r == Some(PollError) ==> t.pollErr && !t.live.LiveError? && (t.pollIn ==> t.input == InputOk)
    ensures r == Some(PollInvalid) ==>
              t.pollNval && !t.pollErr && !t.live.LiveError? && (t.pollIn ==> t.input == InputOk)
  {
    if t.pollRet < 0 then Some(PollFailed)
    else if t.live.LiveError? then Some(LiveFailed(t.live.err))
    else if t.pollIn && t.input.InputError? then Some(InputFailed(t.input.err))
    else if t.pollErr then Some(PollError)
    else if t.pollNval then Some(PollInvalid)
    else None
  }

  /** The index of the first pass that is not healthy, or |ticks| when all are. */
  function FirstFault(ticks: seq<Tick>): (n: nat)
    ensures n <= |ticks|
    ensures forall k :: 0 <= k < n ==> Healthy(ticks[k])
    ensures n < |ticks| ==> !Healthy(ticks[n])
  {
    if ticks == [] || !Healthy(ticks[0]) then 0 else 1 + FirstFault(ticks[1..])
  }

  /**
   * How a session ends: the counter reached its cap and the device reboots, a pass
   * broke the loop, or the passes given ran out while the loop still runs.
   */
  datatype SessionEnd = CapReboot | Faulted(fault: Fault) | Running

  /**
   * The session on values: its end and how many passes it used. `reboot` is the
   * build configuration that enables sys_reboot (CONFIG_REBOOT without CONFIG_DEBUG).
   */
  function SessionOutcome(ticks: seq<Tick>, reboot: bool): (r: (SessionEnd, nat))
    ensures r.1 <= |ticks|
    ensures reboot ==> r.1 <= IterationCap
    ensures r.0 == CapReboot ==> reboot && r.1 == IterationCap
    ensures r.0.Faulted? ==> 1 <= r.1 && TickFault(ticks[r.1 - 1]) == Some(r.0.fault)
    ensures forall k :: 0 <= k < r.1 && !(r.0.Faulted? && k == r.1 - 1) ==> Healthy(ticks[k])
    ensures r.0 == Running ==> r.1 == |ticks| && (reboot ==> |ticks| < IterationCap)
  {
    var n := FirstFault(ticks);
    if reboot && IterationCap <= n then (CapReboot, IterationCap)
    else if n < |ticks| then (Faulted(TickFault(ticks[n]).value), n + 1)
    else (Running, |ticks|)
  }

  /** The first pass that is not healthy, found by a scan. */
  lemma FirstFaultAt(ticks: seq<Tick>, n: nat)
    requires n <= |ticks|
    requires forall k :: 0 <= k < n ==> Healthy(ticks[k])
    requires n == |ticks| || !Healthy(ticks[n])
    ensures FirstFault(ticks) == n
  {
  }

  /**
   * The while(1) loop: `i` counts passes up to IterationCap; once it is there, the
   * next pass reboots when rebooting is enabled and otherwise goes on uncounted.
   */
  method RunSession(ticks: seq<Tick>, reboot: bool) returns (end: SessionEnd, used: nat)
    ensures (end, used) == SessionOutcome(ticks, reboot)
  {
    var i: nat := 0;
    used := 0;
    while true
      invariant used <= |ticks|
      invariant i == if used < IterationCap then used else IterationCap
      invariant forall k :: 0 <= k < used ==> Healthy(ticks[k])
      invariant reboot ==> used <= IterationCap
      decreases |ticks| - used
    {
      if i < IterationCap {
        i := i + 1;
      } else if reboot {
        assert IterationCap <= FirstFault(ticks);
        return CapReboot, used;
      }
      if used == |ticks| {
        FirstFaultAt(ticks, used);
        return Running, used;
      }
      var fault := TickFault(ticks[used]);
      if fault.Some? {
        FirstFaultAt(ticks, used);
        return Faulted(fault.value), used + 1;
      }
      used := used + 1;
    }
  }

  /**
   * main from the end of the connect loop on. `connected` says whether the last
   * mqtt_connect returned 0, `fdsErr` is what fds_init returns, `uartFound` whether
   * init_uart finds UART_0, `ticks` the session's passes and `reboot` whether
   * sys_reboot is compiled in. sys_reboot does not return.
   */
  method AfterConnect(connected: bool, fdsErr: int, uartFound: bool, ticks: seq<Tick>, reboot: bool)
    returns (calls: seq<Call>, session: Option<SessionEnd>)
    ensures !connected ==> calls == (if reboot then [Reboot] else [])
    ensures FdsInit in calls <==> connected
    ensures session.Some? <==> connected && fdsErr == 0 && (uartFound || !reboot)
    ensures session.Some? ==> session.value == SessionOutcome(ticks, reboot).0
    ensures Reboot in calls ==> reboot && calls[|calls| - 1] == Reboot && multiset(calls)[Reboot] == 1
    ensures reboot ==> (Reboot in calls <==> session != Some(Running))
    ensures MqttDisconnect in calls <==> session.Some? && session.value.Faulted?
  {
    calls := [];
    if !connected {
      if reboot {
        calls := [Reboot];
      }
      return calls, None;
    }
    calls := [FdsInit];
    if fdsErr != 0 {
      if reboot {
        calls := calls + [Reboot];
      }
      return calls, None;
    }
    calls := calls + [InitUart];
    if !uartFound && reboot {
      calls := calls + [Reboot];
      return calls, None;
    }
    calls := calls + [WorkQueueStart];
    var end, used := RunSession(ticks, reboot);
    match end {
      case CapReboot =>
        calls := calls + [Reboot];
      case Faulted(_) =>
        calls := calls + [MqttDisconnect];
        if reboot {
          calls := calls + [Reboot];
        }
      case Running =>
    }
    session := Some(end);
  }

  /**
   * main as a whole, after its start-up sleep: the connect loop (attempt `j`'s
   * mqtt_connect returns connect(j)), then the rest.
   */
  method Boot(connect: nat -> int, fdsErr: int, uartFound: bool, ticks: seq<Tick>, reboot: bool)
    returns (log: seq<AttemptLog>, calls: seq<Call>, session: Option<SessionEnd>)
    ensures |log| == Attempts(connect)
    ensures FdsInit in calls <==> Connected(connect)
    ensures session.Some? <==> Connected(connect) && fdsErr == 0 && (uartFound || !reboot)
    ensures session.Some? ==> session.value == SessionOutcome(ticks, reboot).0
    ensures Reboot in calls ==> reboot && calls[|calls| - 1] == Reboot && multiset(calls)[Reboot] == 1
    ensures reboot ==> (Reboot in calls <==> session != Some(Running))
    ensures MqttDisconnect in calls <==> session.Some? && session.value.Faulted?
  {
    var err;
    err, log := ConnectWithRetry(connect);
    calls, session := AfterConnect(err == 0, fdsErr, uartFound, ticks, reboot);
  }
}
