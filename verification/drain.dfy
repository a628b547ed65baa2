/** The drain decision of check_active_sessions.lambda_handler: an Auto Scaling
    lifecycle hook is resolved CONTINUE only after the ActiveUserSessions metric
    has been seen at zero, and ABANDON on exhaustion of the attempt budget or on
    any error inside the handler's `try`.

    The two AWS services (autoscaling and cloudwatch) are a scripted oracle: a
    `Script` says, per attempt, whether the heartbeat succeeds and what the metric
    query answers, and, per resolve call, whether complete_lifecycle_action
    succeeds. The handler emits a trace of the calls it makes. */
module Drain {

  datatype Option<+T> = None | Some(value: T)

  datatype Result<+T, +E> = Success(value: T) | Failure(error: E)

  /** The LifecycleActionResult passed to complete_lifecycle_action. */
  datatype LifecycleResult = Continue | Abandon

  /** What one get_metric_statistics call gives: it raises, or it answers with the
      `Maximum` of each datapoint, in the order of the response. `Datapoints([])` is
      a response without datapoints. */
  datatype MetricReply = Raises | Datapoints(maxima: seq<int>)

  /** The scripted oracle for one invocation. */
  datatype Script = Script(
    heartbeatOk: nat -> bool,    // record_lifecycle_action_heartbeat on attempt i returns normally
    metric: nat -> MetricReply,  // get_metric_statistics on attempt i
    resolveOk: nat -> bool)      // the n-th complete_lifecycle_action call (from 0) returns normally

  /** One externally observable step of the handler. */
  datatype Action =
    | Heartbeat(attempt: nat, ok: bool)
    | Query(attempt: nat, reply: MetricReply)
    | Wait(seconds: nat)
    | Resolve(result: LifecycleResult, ok: bool)

  datatype Error =
    | KeyError(key: string)  // a field of the event is missing
    | ResolveFailed          // the ABANDON of the `except` branch raised

  /** How the invocation ends: a response dictionary, or an exception that escapes. */
  datatype Exit = Returned(statusCode: int, body: string) | Raised(error: Error)

  /** The hook that one invocation acts on. */
  datatype DrainRequest = DrainRequest(instanceId: string, groupName: string, hookName: string)

  /** The triggering event: only its `detail` dictionary is read. */
  datatype Event = Event(detail: Option<map<string, string>>)

  const DetailKey := "detail"
  const InstanceIdKey := "EC2InstanceId"
  const GroupNameKey := "AutoScalingGroupName"
  const HookNameKey := "LifecycleHookName"

  const MaxAttempts: nat := 12
  const WaitSeconds: nat := 300
  const TerminableBody := "Instance can be terminated"
  const CompletedBody := "Function completed successfully"

  /** Reads the three identifiers out of the event; a missing key raises KeyError
      naming the first key looked up that is absent. */
  function ExtractRequest(event: Event): (r: Result<DrainRequest, string>)
    ensures r.Success? <==>
      event.detail.Some? && InstanceIdKey in event.detail.value &&
      GroupNameKey in event.detail.value && HookNameKey in event.detail.value
    ensures r.Success? ==> r.value == DrainRequest(event.detail.value[InstanceIdKey],
                                                   event.detail.value[GroupNameKey],
                                                   event.detail.value[HookNameKey])
    ensures r.Failure? && r.error == DetailKey <==> event.detail.None?
    ensures r.Failure? && r.error == InstanceIdKey <==>
      event.detail.Some? && InstanceIdKey !in event.detail.value
    ensures r.Failure? && r.error == GroupNameKey <==>
      event.detail.Some? && InstanceIdKey in event.detail.value && GroupNameKey !in event.detail.value
    ensures r.Failure? && r.error == HookNameKey <==>
      event.detail.Some? && InstanceIdKey in event.detail.value &&
      GroupNameKey in event.detail.value && HookNameKey !in event.detail.value
  {
    match event.detail
    case None => Failure(DetailKey)
    case Some(d) =>
      if InstanceIdKey !in d then Failure(InstanceIdKey)
      else if GroupNameKey !in d then Failure(GroupNameKey)
      else if HookNameKey !in d then Failure(HookNameKey)
      else Success(DrainRequest(d[InstanceIdKey], d[GroupNameKey], d[HookNameKey]))
  }

  /** The first datapoint's Maximum is zero: no active sessions. */
  predicate ObservedZero(reply: MetricReply) {
    reply.Datapoints? && |reply.maxima| > 0 && reply.maxima[0] == 0
  }

  /** The attempt whose query gives `reply` is the last one: the query raises, or it
      sees zero sessions. Every other reply makes the attempt wait and go on. */
  predicate EndsLoop(reply: MetricReply) {
    reply.Raises? || ObservedZero(reply)
  }

  /** The first attempt, from `from` on, whose query ends the loop; MaxAttempts if none. */
  function FirstStop(metric: nat -> MetricReply, from: nat): (k: nat)
    requires from <= MaxAttempts
    ensures from <= k <= MaxAttempts
    ensures k < MaxAttempts ==> EndsLoop(metric(k))
    ensures forall j :: from <= j < k ==> !EndsLoop(metric(j))
    decreases MaxAttempts - from
  {
    if from == MaxAttempts then MaxAttempts
    else if EndsLoop(metric(from)) then from
    else FirstStop(metric, from + 1)
  }

  /** FirstStop is the attempt k when every attempt before k goes on and k ends the loop. */
  lemma FirstStopIs(metric: nat -> MetricReply, k: nat)
    requires k <= MaxAttempts
    requires forall j :: 0 <= j < k ==> !EndsLoop(metric(j))
    requires k < MaxAttempts ==> EndsLoop(metric(k))
    ensures FirstStop(metric, 0) == k
  {
  }

  /** The calls of attempt i up to and including its query: a heartbeat unless i == 0. */
  function Probe(s: Script, i: nat): seq<Action> {
    (if i > 0 then [Heartbeat(i, s.heartbeatOk(i))] else []) + [Query(i, s.metric(i))]
  }

  /** The trace of attempts 0 .. n-1 when each of them waits and goes on. */
  function Probes(s: Script, n: nat): (t: seq<Action>)
    ensures |t| == if n == 0 then 0 else 3 * n - 1
  {
    if n == 0 then [] else Probes(s, n - 1) + (Probe(s, n - 1) + [Wait(WaitSeconds)])
  }

  /** How the `try` block ends. */
  datatype TryEnd =
    | EarlyReturn       // CONTINUE succeeded; the handler returns from inside the loop
    | FellThrough       // the exhaustion ABANDON succeeded
    | Threw(calls: nat) // an exception was raised after `calls` resolve calls

  /** The calls of attempt i and how it ends, by what its query answers: a raise ends
      the `try` block with no resolve issued; zero sessions issue CONTINUE, which either
      returns or raises; anything else waits, and the loop goes on (None). */
  function AttemptSteps(s: Script, i: nat): (seq<Action>, Option<TryEnd>) {
    var reply := s.metric(i);
    if reply.Raises? then
      (Probe(s, i), Some(Threw(0)))
    else if ObservedZero(reply) then
      var ok := s.resolveOk(0);
      (Probe(s, i) + [Resolve(Continue, ok)], Some(if ok then EarlyReturn else Threw(1)))
    else
      (Probe(s, i) + [Wait(WaitSeconds)], None)
  }

  /** The trace and end of the `try` block: the attempts that go on, then either the
      attempt that ends the loop or, after all 12, the exhaustion ABANDON. */
  function TryBlock(s: Script): (seq<Action>, TryEnd) {
    var k := FirstStop(s.metric, 0);
    if k == MaxAttempts then
      var ok := s.resolveOk(0);
      (Probes(s, k) + [Resolve(Abandon, ok)], if ok then FellThrough else Threw(1))
    else
      var (steps, stop) := AttemptSteps(s, k);
      (Probes(s, k) + steps, stop.value)
  }

  /** The whole invocation: field extraction, the `try` block and its `except` branch. */
  function Reference(event: Event, s: Script): (seq<Action>, Exit) {
    match ExtractRequest(event)
    case Failure(key) => ([], Raised(KeyError(key)))
    case Success(_) =>
      var (t, end) := TryBlock(s);
      match end
      case EarlyReturn => (t, Returned(200, TerminableBody))
      case FellThrough => (t, Returned(200, CompletedBody))
      case Threw(n) =>
        var ok := s.resolveOk(n);
        (t + [Resolve(Abandon, ok)], if ok then Returned(200, CompletedBody) else Raised(ResolveFailed))
  }

  /** One pass of the attempt loop, step by step against the oracle: the heartbeat
      (from the second attempt on, its failure swallowed), the metric query, and the
      decision. `stop` is None when the attempt waits and the loop goes on. */
  method RunAttempt(s: Script, attempt: nat) returns (steps: seq<Action>, stop: Option<TryEnd>)
    ensures (steps, stop) == AttemptSteps(s, attempt)
  {
    steps := [];
    if attempt > 0 {
      // a failing heartbeat is caught and the attempt goes on
      var ok := s.heartbeatOk(attempt);
      steps := steps + [Heartbeat(attempt, ok)];
    }
    var reply := s.metric(attempt);
    steps := steps + [Query(attempt, reply)];
    assert steps == Probe(s, attempt);
    if reply.Raises? {
      return steps, Some(Threw(0));
    }
    if |reply.maxima| > 0 && reply.maxima[0] == 0 {
      var ok := s.resolveOk(0);
      steps := steps + [Resolve(Continue, ok)];
      return steps, Some(if ok then EarlyReturn else Threw(1));
    }
    steps := steps + [Wait(WaitSeconds)];
    stop := None;
  }

  /** The `try` block of the handler: the attempt loop and the exhaustion ABANDON. */
  method AttemptLoop(s: Script) returns (trace: seq<Action>, end: TryEnd)
    ensures (trace, end) == TryBlock(s)
  {
    trace := [];
    var attempt: nat := 0;
    while attempt < MaxAttempts
      invariant attempt <= MaxAttempts
      invariant forall j :: 0 <= j < attempt ==> !EndsLoop(s.metric(j))
      invariant trace == Probes(s, attempt)
    {
      var steps, stop := RunAttempt(s, attempt);
      trace := trace + steps;
      if stop.Some? {
        FirstStopIs(s.metric, attempt);
        return trace, stop.value;
      }
      attempt := attempt + 1;
    }
    FirstStopIs(s.metric, MaxAttempts);
    var ok := s.resolveOk(0);
    trace := trace + [Resolve(Abandon, ok)];
    end := if ok then FellThrough else Threw(1);
  }

  /** The handler: field extraction before the `try`, the `try` block, and the
      ABANDON of the `except` branch. */
  method LambdaHandler(event: Event, s: Script) returns (trace: seq<Action>, exit: Exit)
    ensures (trace, exit) == Reference(event, s)
  {
    var request := ExtractRequest(event);
    if request.Failure? {
      return [], Raised(KeyError(request.error));
    }
    var end;
    trace, end := AttemptLoop(s);
    match end
    case EarlyReturn =>
      exit := Returned(200, TerminableBody);
    case FellThrough =>
      exit := Returned(200, CompletedBody);
    case Threw(calls) =>
      var ok := s.resolveOk(calls);
      trace := trace + [Resolve(Abandon, ok)];
      exit := if ok then Returned(200, CompletedBody) else Raised(ResolveFailed);
  }
}
