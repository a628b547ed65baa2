# Drain decision of `check_active_sessions.lambda_handler`

This project models the handler that drains Windows hosts before they are terminated. An Auto Scaling lifecycle hook pauses the termination. The handler then polls the CloudWatch metric `ActiveUserSessions` of the instance for up to 12 attempts, 300 seconds apart, and resolves the hook:

- `CONTINUE` (the instance may be terminated) as soon as the first datapoint's `Maximum` is 0;
- `ABANDON` when the attempts run out, or when anything inside the handler's `try` raises.

From the second attempt on, each attempt first records a lifecycle heartbeat, and a failure of that call is swallowed.

The two AWS services are replaced by a scripted oracle, `Drain.Script`, with three parts:

- per attempt, whether `record_lifecycle_action_heartbeat` returns normally;
- per attempt, what `get_metric_statistics` gives: it raises, or it answers with the `Maximum` of each datapoint, in order, where an empty list means no datapoints;
- per call, numbered from 0, whether `complete_lifecycle_action` returns normally.

The handler is the imperative method `Drain.LambdaHandler`. It calls `Drain.AttemptLoop` for the `try` block, and that calls `Drain.RunAttempt` once per loop iteration. The handler emits the trace of calls it makes, as `Heartbeat`, `Query`, `Wait` and `Resolve` actions. It ends in an `Exit`: either a returned `statusCode` and `body`, or an exception that escapes.

Each method is proved equal to a closed-form function, `Drain.Reference`, built from `Drain.TryBlock` and `Drain.FirstStop`. `FirstStop` is the first attempt whose query raises or sees zero. Module `DrainProperties` proves trace properties of `Reference` and so of every run of the handler:

- which call sits at which position of the trace (`TraceLayout`);
- how many calls of each kind there are;
- ordering;
- which outcome each path reaches;
- the safety rule that CONTINUE only follows an observed zero.

The code, not the higher-level description of the component, decides the model, and the two differ in two places:

- **Resolve calls.** The description promises at most one resolve call. The code issues a second `ABANDON` from its `except` branch (lines 86-94) whenever the resolve inside the `try` raises. That resolve is either the `CONTINUE` at line 59 or the exhaustion `ABANDON` at line 79. The model keeps this: `DrainProperties.SecondResolveAfterFailedResolve`, `DrainProperties.ResolveCalls`.
- **Empty identifiers.** The description asks for non-empty identifier strings. The code only reads the three keys (lines 14-16) and accepts empty strings. The model does the same.

## Model

| member | source | states |
|---|---|---|
| Drain.ExtractRequest | IaC/scripts/lambda/check_active_sessions.py:14-16 | succeeds exactly when `detail` and its three keys are present, with their values; otherwise it names the first key looked up that is missing (`detail`, then `EC2InstanceId`, `AutoScalingGroupName`, `LifecycleHookName`) |
| Drain.FirstStop | IaC/scripts/lambda/check_active_sessions.py:19-20 | the first attempt below 12 whose query raises or whose first datapoint is 0, and 12 when there is none; every earlier attempt goes on |
| Drain.RunAttempt | IaC/scripts/lambda/check_active_sessions.py:21-75 | one iteration step by step: a heartbeat only when attempt > 0, with its failure swallowed; the query; then a raise, a CONTINUE on zero, or one 300-second wait, equal to `AttemptSteps` |
| Drain.AttemptLoop | IaC/scripts/lambda/check_active_sessions.py:18-84 | the loop over at most 12 attempts with its early return, then the exhaustion ABANDON; trace and ending equal `TryBlock`; the invariant says the trace so far is `Probes(s, attempt)` and no earlier attempt ended the loop |
| Drain.LambdaHandler | IaC/scripts/lambda/check_active_sessions.py:6-99 | key extraction before the `try`, the `try` block, the `except` ABANDON and the final return, equal to `Reference` |
| DrainProperties.ProbesCount | IaC/scripts/lambda/check_active_sessions.py:20-75 | n attempts that go on make n queries, n waits and n-1 heartbeats (none for n = 0) and no resolve |
| DrainProperties.ProbesAt | IaC/scripts/lambda/check_active_sessions.py:20-75 | position j of the attempts that go on is `ActionAt(s, j)`: the query of attempt j/3, a wait, or the heartbeat of attempt j/3+1 |
| DrainProperties.TraceLayout | IaC/scripts/lambda/check_active_sessions.py:18-94 | a trace past key extraction is the attempt phase in closed form (35 steps on exhaustion, 3k+1 when attempt k ends the loop), then one resolve asking for CONTINUE exactly on an observed zero, then an ABANDON exactly when that resolve raised |
| DrainProperties.AttemptCounts | IaC/scripts/lambda/check_active_sessions.py:19-75 | with k = FirstStop: k+1 queries, k heartbeats and k waits when attempt k ends the loop, and 12, 11 and 12 when none does |
| DrainProperties.ResolveCounts | IaC/scripts/lambda/check_active_sessions.py:57-94 | one CONTINUE exactly when attempt k saw zero, and two resolve calls exactly when the resolve inside the `try` raised, otherwise one |
| DrainProperties.MalformedEventMakesNoCalls | IaC/scripts/lambda/check_active_sessions.py:14-18 | the trace is empty exactly when a key is missing, and the handler then raises KeyError naming that key |
| DrainProperties.HeartbeatPrecedesQuery | IaC/scripts/lambda/check_active_sessions.py:20-34 | no heartbeat on attempt 0; each heartbeat is for an attempt from 1 to 11, records the oracle's answer and is followed at once by that attempt's query, whatever the answer; each query after the first follows its attempt's heartbeat |
| DrainProperties.NoAttemptRepeated | IaC/scripts/lambda/check_active_sessions.py:20-34 | no attempt has two heartbeats or two queries |
| DrainProperties.BusyQueryWaitsThenAdvances | IaC/scripts/lambda/check_active_sessions.py:53-75 | a query that neither raised nor saw zero is followed by one 300-second wait and then by the next attempt's heartbeat, or after attempt 11 by the exhaustion ABANDON; every wait follows such a query |
| DrainProperties.NothingButResolvesAfterStop | IaC/scripts/lambda/check_active_sessions.py:53-69 | after a query that raised or saw zero there are only resolve calls |
| DrainProperties.ContinueOnlyAfterObservedZero | IaC/scripts/lambda/check_active_sessions.py:57-63 | every CONTINUE comes right after a query whose first datapoint is 0 |
| DrainProperties.ContinueIffZeroObserved | IaC/scripts/lambda/check_active_sessions.py:53-69 | at most one CONTINUE, issued exactly when an attempt sees zero before any query raises; the body "Instance can be terminated" is returned exactly when that CONTINUE succeeds |
| DrainProperties.ResolveCalls | IaC/scripts/lambda/check_active_sessions.py:79-99 | a trace past key extraction ends with a resolve; there are one or two resolves; the handler raises exactly when the last resolve raised, and otherwise returns status 200 |
| DrainProperties.SecondResolveAfterFailedResolve | IaC/scripts/lambda/check_active_sessions.py:59-94 | when the CONTINUE or exhaustion ABANDON inside the `try` raises, the `except` branch issues a second resolve, an ABANDON |
| DrainProperties.ProceedOnZero | IaC/scripts/lambda/check_active_sessions.py:53-69 | zero on attempt k and a successful CONTINUE: 3k+2 calls, the last is the CONTINUE right after attempt k's query, k+1 queries, k heartbeats, k waits, no ABANDON, and a return of 200 "Instance can be terminated" |
| DrainProperties.FailedContinueAbandons | IaC/scripts/lambda/check_active_sessions.py:57-94 | zero on attempt k and a CONTINUE that raises: the trace ends with the failed CONTINUE and the `except` ABANDON; the handler returns 200 "Function completed successfully" if that ABANDON succeeds and raises otherwise |
| DrainProperties.ExhaustionAbandons | IaC/scripts/lambda/check_active_sessions.py:72-99 | no attempt ends the loop: 12 queries, 11 heartbeats and 12 waits, attempt 11's wait at position 34, then the ABANDON and 200 "Function completed successfully"; if that ABANDON raises, the `except` branch abandons again |
| DrainProperties.QueryErrorAbandons | IaC/scripts/lambda/check_active_sessions.py:34-94 | the query of attempt k raises: no further attempt, the `except` ABANDON right after that query, and the handler raises exactly when that ABANDON does |
| DrainProperties.CallsBounded | IaC/scripts/lambda/check_active_sessions.py:19-20 | at most 37 calls: 12 queries, 11 heartbeats, 3600 seconds of waiting and 2 resolves |
| DrainProperties.HeartbeatOutcomeIgnored | IaC/scripts/lambda/check_active_sessions.py:22-31 | changing which heartbeats fail leaves the trace length, every call except the heartbeats' own outcomes, and the handler's result unchanged |

## Left out

- The boto3 clients (lines 10-11) and the AWS services are the scripted oracle; the arguments of each call (hook name, group name, instance id, metric namespace, dimensions, time window) are not recorded in the trace.
- A `Raises` reply stands for any exception raised by the query or while reading its reply. That covers a response without `Datapoints` and a datapoint without `Maximum` (lines 53-54), which raise inside the `try` just the same.
- Logging with `print` and `json.dumps` (lines 7, 29, 31, 55, 65, 71, 74, 78, 87) is left out. The return bodies are plain strings, without the quotes `json.dumps` adds.
- `time.sleep(300)` is a `Wait(300)` action in the trace; no time passes.
- The `datetime.utcnow()` query window (lines 47-48) is left out: it is wall-clock input with no effect on the decision.
- Datapoint `Maximum` values are integers rather than floats; only the comparison with 0 matters.
- The unused `context` argument is left out.
- An event whose `detail` is present but not a dictionary is not modelled; the event is either missing `detail` or holds a map of strings.
