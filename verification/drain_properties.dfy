/** Trace properties of the drain handler: call counts, the order of heartbeats,
    queries and waits, which resolution each path reaches, and the rule that
    CONTINUE is only ever issued right after a query that saw zero sessions. */
module DrainProperties {
  import opened Drain

  datatype Kind = HeartbeatK | QueryK | WaitK | ContinueK | AbandonK

  function KindOf(a: Action): Kind {
    match a
    case Heartbeat(_, _) => HeartbeatK
    case Query(_, _) => QueryK
    case Wait(_) => WaitK
    case Resolve(r, _) => if r == Continue then ContinueK else AbandonK
  }

  /** How many steps of kind k the trace holds. */
  function Count(t: seq<Action>, k: Kind): nat {
    if t == [] then 0 else Count(t[..|t| - 1], k) + (if KindOf(t[|t| - 1]) == k then 1 else 0)
  }

  lemma {:induction false} CountAppend(a: seq<Action>, b: seq<Action>, k: Kind)
    ensures Count(a + b, k) == Count(a, k) + Count(b, k)
  {
    if b == [] {
      assert a + b == a;
    } else {
      assert (a + b)[..|a + b| - 1] == a + b[..|b| - 1];
      CountAppend(a, b[..|b| - 1], k);
    }
  }

  /** The resolve call inside the `try` (the CONTINUE, or the exhaustion ABANDON)
      is issued and raises, so the `except` branch issues a second resolve. */
  predicate ResolveInTryFails(s: Script) {
    var k := FirstStop(s.metric, 0);
    (k == MaxAttempts || !s.metric(k).Raises?) && !s.resolveOk(0)
  }

  /** The calls before the first resolve. */
  function AttemptPhase(s: Script): seq<Action> {
    var k := FirstStop(s.metric, 0);
    if k == MaxAttempts then Probes(s, k) else Probes(s, k) + Probe(s, k)
  }

  /** The resolve calls that end a trace: the one inside the `try` or the one of the
      `except` branch, and the `except` branch's ABANDON after a failed first one. */
  function ResolveTail(s: Script): seq<Action> {
    var k := FirstStop(s.metric, 0);
    var first := Resolve(if k < MaxAttempts && ObservedZero(s.metric(k)) then Continue else Abandon,
                         s.resolveOk(0));
    if ResolveInTryFails(s) then [first, Resolve(Abandon, s.resolveOk(1))] else [first]
  }

  /** Length of the attempt phase when the loop stops at attempt k (k == MaxAttempts:
      no attempt stops it). */
  function PhaseLength(k: nat): nat {
    if k == MaxAttempts then 3 * MaxAttempts - 1 else 3 * k + 1
  }

  /** Position j of the attempt phase, in closed form: attempt i >= 1 takes positions
      3i-1 (heartbeat), 3i (query) and 3i+1 (wait); attempt 0 takes 0 and 1. */
  function ActionAt(s: Script, j: nat): Action {
    if j % 3 == 0 then Query(j / 3, s.metric(j / 3))
    else if j % 3 == 1 then Wait(WaitSeconds)
    else Heartbeat(j / 3 + 1, s.heartbeatOk(j / 3 + 1))
  }

  /** Where each kind of step of the closed form sits, and what is next to it. */
  lemma ActionAtFacts(s: Script, j: nat)
    ensures var a := ActionAt(s, j);
      (a.Heartbeat? ==>
         a.attempt >= 1 && j == 3 * a.attempt - 1 && a.ok == s.heartbeatOk(a.attempt) &&
         ActionAt(s, j + 1) == Query(a.attempt, s.metric(a.attempt))) &&
      (a.Query? ==>
         j == 3 * a.attempt && a.reply == s.metric(a.attempt) &&
         ActionAt(s, j + 1) == Wait(WaitSeconds) &&
         (a.attempt > 0 ==> ActionAt(s, j - 1) == Heartbeat(a.attempt, s.heartbeatOk(a.attempt)))) &&
      (a.Wait? ==>
         a == Wait(WaitSeconds) && j >= 1 && ActionAt(s, j - 1).Query? &&
         j == 3 * ActionAt(s, j - 1).attempt + 1 &&
         ActionAt(s, j + 1) == Heartbeat(ActionAt(s, j - 1).attempt + 1,
                                         s.heartbeatOk(ActionAt(s, j - 1).attempt + 1)))
  {
    var q, r := j / 3, j % 3;
    assert j == 3 * q + r;
    if r == 2 {
      assert (j + 1) % 3 == 0 && (j + 1) / 3 == q + 1;
    } else if r == 0 {
      assert (j + 1) % 3 == 1;
      if q > 0 {
        assert (j - 1) % 3 == 2 && (j - 1) / 3 == q - 1;
      }
    } else {
      assert (j - 1) % 3 == 0 && (j - 1) / 3 == q;
      assert (j + 1) % 3 == 2 && (j + 1) / 3 == q;
    }
  }

  /** How many steps of each kind the attempts 0 .. n-1 take when each of them
      waits and goes on. */
  function ProbesKindCount(n: nat, kind: Kind): nat {
    if kind == QueryK || kind == WaitK then n
    else if kind == HeartbeatK && n > 0 then n - 1
    else 0
  }

  lemma CountSingle(a: Action, kind: Kind)
    ensures Count([a], kind) == if KindOf(a) == kind then 1 else 0
  {
    assert [a][..0] == [];
  }

  /** How many steps of each kind attempt i takes up to and including its query. */
  function ProbeKindCount(i: nat, kind: Kind): nat {
    if kind == QueryK || (kind == HeartbeatK && i > 0) then 1 else 0
  }

  lemma ProbeCount(s: Script, i: nat, kind: Kind)
    ensures Count(Probe(s, i), kind) == ProbeKindCount(i, kind)
  {
    CountSingle(Query(i, s.metric(i)), kind);
    if i > 0 {
      CountSingle(Heartbeat(i, s.heartbeatOk(i)), kind);
      CountAppend([Heartbeat(i, s.heartbeatOk(i))], [Query(i, s.metric(i))], kind);
    } else {
      assert Probe(s, i) == [Query(i, s.metric(i))];
    }
  }

  /** Attempts that wait and go on make one query and one wait each, and a heartbeat
      each except attempt 0; they resolve nothing. */
  lemma {:induction false} ProbesCount(s: Script, n: nat, kind: Kind)
    ensures Count(Probes(s, n), kind) == ProbesKindCount(n, kind)
  {
    if n > 0 {
      var prev, p, w := Probes(s, n - 1), Probe(s, n - 1), [Wait(WaitSeconds)];
      ProbesCount(s, n - 1, kind);
      ProbeCount(s, n - 1, kind);
      CountSingle(Wait(WaitSeconds), kind);
      CountAppend(p, w, kind);
      CountAppend(prev, p + w, kind);
    }
  }

  /** The loop builds the closed form: each position of the attempts is ActionAt. */
  lemma {:induction false} ProbesAt(s: Script, n: nat, j: nat)
    requires j < |Probes(s, n)|
    ensures Probes(s, n)[j] == ActionAt(s, j)
  {
    var i := n - 1;
    var prev := Probes(s, i);
    if j < |prev| {
      ProbesAt(s, i, j);
    } else if i == 0 {
      assert Probes(s, n) == [Query(0, s.metric(0)), Wait(WaitSeconds)];
    } else {
      assert Probes(s, n) == prev + [Heartbeat(i, s.heartbeatOk(i)), Query(i, s.metric(i)), Wait(WaitSeconds)];
      assert j == 3 * (i - 1) + 2 || j == 3 * i || j == 3 * i + 1;
    }
  }

  /** Every trace of an invocation that gets past field extraction is its attempt
      phase followed by one or two resolves. */
  lemma Decompose(event: Event, s: Script)
    requires ExtractRequest(event).Success?
    ensures Reference(event, s).0 == AttemptPhase(s) + ResolveTail(s)
  {
  }

  /** The closed form at the positions of attempt i's heartbeat and query. */
  lemma ActionAtAttempt(s: Script, i: nat)
    ensures i > 0 ==> ActionAt(s, 3 * i - 1) == Heartbeat(i, s.heartbeatOk(i))
    ensures ActionAt(s, 3 * i) == Query(i, s.metric(i))
  {
    if i > 0 {
      assert (3 * i - 1) % 3 == 2 && (3 * i - 1) / 3 == i - 1;
    }
    assert (3 * i) % 3 == 0 && (3 * i) / 3 == i;
  }

  /** The closed form right after attempt i's query: its wait, then the next
      attempt's heartbeat. */
  lemma ActionAtAfterQuery(s: Script, i: nat)
    ensures ActionAt(s, 3 * i + 1) == Wait(WaitSeconds)
    ensures ActionAt(s, 3 * i + 2) == Heartbeat(i + 1, s.heartbeatOk(i + 1))
  {
    assert (3 * i + 1) % 3 == 1;
    assert (3 * i + 2) % 3 == 2 && (3 * i + 2) / 3 == i;
  }

  /** Attempts 0 .. k-1 that go on, then the calls of attempt k up to its query. */
  lemma StoppedProbesAt(s: Script, k: nat, j: nat)
    requires j < |Probes(s, k) + Probe(s, k)|
    ensures |Probes(s, k) + Probe(s, k)| == 3 * k + 1
    ensures (Probes(s, k) + Probe(s, k))[j] == ActionAt(s, j)
  {
    var probes := Probes(s, k);
    var probe := Probe(s, k);
    ActionAtAttempt(s, k);
    if j < |probes| {
      ProbesAt(s, k, j);
    } else if j == 3 * k {
      assert (probes + probe)[j] == Query(k, s.metric(k));
    } else {
      assert j == 3 * k - 1;
      assert (probes + probe)[j] == Heartbeat(k, s.heartbeatOk(k));
    }
  }

  /** The attempt phase in closed form: its length and each of its positions. */
  lemma AttemptPhaseAt(s: Script, j: nat)
    requires j < |AttemptPhase(s)|
    ensures |AttemptPhase(s)| == PhaseLength(FirstStop(s.metric, 0))
    ensures AttemptPhase(s)[j] == ActionAt(s, j)
  {
    var k := FirstStop(s.metric, 0);
    if k == MaxAttempts {
      ProbesAt(s, k, j);
    } else {
      StoppedProbesAt(s, k, j);
    }
  }

  /** The resolution that the first resolve call asks for. */
  function FirstResolution(s: Script): LifecycleResult {
    var k := FirstStop(s.metric, 0);
    if k < MaxAttempts && ObservedZero(s.metric(k)) then Continue else Abandon
  }

  /** The shape of the traces of script s: the attempt phase in closed form, then
      one resolve asking for FirstResolution(s), then at most one ABANDON. */
  predicate LaidOut(t: seq<Action>, s: Script) {
    var m := PhaseLength(FirstStop(s.metric, 0));
    m < |t| <= m + 2 &&
    (forall j {:trigger ActionAt(s, j)} :: 0 <= j < m ==> t[j] == ActionAt(s, j)) &&
    (forall j :: 0 <= j < |t| ==> (t[j].Resolve? <==> m <= j)) &&
    t[m] == Resolve(FirstResolution(s), s.resolveOk(0)) &&
    (m + 1 < |t| ==> t[m + 1].result == Abandon)
  }

  /** Every trace of an invocation that gets past field extraction has that shape,
      and holds a second resolve, the `except` branch's ABANDON, exactly when the
      resolve inside the `try` raised. */
  lemma TraceLayout(event: Event, s: Script)
    requires ExtractRequest(event).Success?
    ensures var t := Reference(event, s).0;
            var m := PhaseLength(FirstStop(s.metric, 0));
            LaidOut(t, s) &&
            (|t| == m + 2 <==> ResolveInTryFails(s)) &&
            (|t| == m + 2 ==> t[m + 1] == Resolve(Abandon, s.resolveOk(1)))
  {
    Decompose(event, s);
    var phase := AttemptPhase(s);
    AttemptPhaseAt(s, 0);
    forall j | 0 <= j < |phase| ensures phase[j] == ActionAt(s, j) && !phase[j].Resolve? {
      AttemptPhaseAt(s, j);
    }
  }

  /** A heartbeat in a laid-out trace: for attempt i >= 1, followed by attempt i's query. */
  lemma HeartbeatStep(t: seq<Action>, s: Script, j: nat)
    requires LaidOut(t, s) && j < |t| && t[j].Heartbeat?
    ensures 1 <= t[j].attempt < MaxAttempts && j == 3 * t[j].attempt - 1 &&
            t[j].ok == s.heartbeatOk(t[j].attempt) &&
            j + 1 < |t| && t[j + 1] == Query(t[j].attempt, s.metric(t[j].attempt))
  {
    ActionAtFacts(s, j);
  }

  /** A query in a laid-out trace: at position 3i for attempt i, right after attempt
      i's heartbeat, recording the oracle's answer. */
  lemma QueryStep(t: seq<Action>, s: Script, j: nat)
    requires LaidOut(t, s) && j < |t| && t[j].Query?
    ensures var i := t[j].attempt;
            i <= FirstStop(s.metric, 0) && i < MaxAttempts && j == 3 * i && t[j].reply == s.metric(i) &&
            (i > 0 ==> t[j - 1] == Heartbeat(i, s.heartbeatOk(i)))
  {
    ActionAtFacts(s, j);
  }

  /** In a laid-out trace, the query that ends the loop is the last step before
      the resolves. */
  lemma StopQueryIsLast(t: seq<Action>, s: Script, j: nat)
    requires LaidOut(t, s) && j < |t| && t[j].Query? && EndsLoop(t[j].reply)
    ensures j == PhaseLength(FirstStop(s.metric, 0)) - 1
  {
    ActionAtFacts(s, j);
    assert t[j].attempt == FirstStop(s.metric, 0);
  }

  /** In a laid-out trace, attempt i before the one at which the loop stops waits
      after its query, and then comes the next attempt's heartbeat or, after attempt
      11, the exhaustion ABANDON. */
  lemma BusyAttemptNext(t: seq<Action>, s: Script, i: nat)
    requires LaidOut(t, s) && i < FirstStop(s.metric, 0)
    ensures 3 * i + 2 < |t| && t[3 * i + 1] == Wait(WaitSeconds) &&
            t[3 * i + 2] == (if i + 1 < MaxAttempts then Heartbeat(i + 1, s.heartbeatOk(i + 1))
                             else Resolve(Abandon, s.resolveOk(0)))
  {
    ActionAtAfterQuery(s, i);
  }

  /** In a laid-out trace, a query that does not end the loop is followed by a wait
      and the next attempt's heartbeat, or, after attempt 11, by the exhaustion ABANDON. */
  lemma BusyQueryNext(t: seq<Action>, s: Script, j: nat)
    requires LaidOut(t, s) && j < |t| && t[j].Query? && !EndsLoop(t[j].reply)
    ensures var i := t[j].attempt;
            j + 2 < |t| && t[j + 1] == Wait(WaitSeconds) &&
            t[j + 2] == (if i + 1 < MaxAttempts then Heartbeat(i + 1, s.heartbeatOk(i + 1))
                         else Resolve(Abandon, s.resolveOk(0)))
  {
    QueryStep(t, s, j);
    BusyAttemptNext(t, s, t[j].attempt);
  }

  /** A wait in a laid-out trace: 300 seconds, right after a query that neither raised
      nor saw zero. */
  lemma WaitStep(t: seq<Action>, s: Script, j: nat)
    requires LaidOut(t, s) && j < |t| && t[j].Wait?
    ensures t[j] == Wait(WaitSeconds) && 1 <= j && t[j - 1].Query? && !EndsLoop(t[j - 1].reply)
  {
    ActionAtFacts(s, j);
    var i := ActionAt(s, j - 1).attempt;
    assert i < FirstStop(s.metric, 0);
  }

  lemma PhaseCount(s: Script, kind: Kind)
    ensures var k := FirstStop(s.metric, 0);
            Count(AttemptPhase(s), kind) ==
              ProbesKindCount(k, kind) + (if k == MaxAttempts then 0 else ProbeKindCount(k, kind))
  {
    var k := FirstStop(s.metric, 0);
    ProbesCount(s, k, kind);
    if k < MaxAttempts {
      ProbeCount(s, k, kind);
      CountAppend(Probes(s, k), Probe(s, k), kind);
    }
  }

  lemma TailCount(s: Script, kind: Kind)
    ensures var tail := ResolveTail(s);
            Count(tail, kind) ==
              (if KindOf(tail[0]) == kind then 1 else 0) +
              (if |tail| == 2 && kind == AbandonK then 1 else 0)
  {
    var tail := ResolveTail(s);
    CountSingle(tail[0], kind);
    if |tail| == 2 {
      CountSingle(tail[1], kind);
      CountAppend([tail[0]], [tail[1]], kind);
      assert tail == [tail[0]] + [tail[1]];
    }
  }

  /** How many steps of one kind a trace holds, by the attempt at which the loop stops. */
  lemma TraceKindCount(event: Event, s: Script, kind: Kind)
    requires ExtractRequest(event).Success?
    ensures var k := FirstStop(s.metric, 0);
            Count(Reference(event, s).0, kind) ==
              ProbesKindCount(k, kind) + (if k == MaxAttempts then 0 else ProbeKindCount(k, kind)) +
              (if KindOf(Resolve(FirstResolution(s), true)) == kind then 1 else 0) +
              (if ResolveInTryFails(s) && kind == AbandonK then 1 else 0)
  {
    Decompose(event, s);
    CountAppend(AttemptPhase(s), ResolveTail(s), kind);
    PhaseCount(s, kind);
    TailCount(s, kind);
  }

  /** Heartbeat, query and wait counts of every trace, by the attempt k at which the
      loop stops. */
  lemma AttemptCounts(event: Event, s: Script)
    requires ExtractRequest(event).Success?
    ensures var t := Reference(event, s).0;
            var k := FirstStop(s.metric, 0);
            Count(t, QueryK) == (if k == MaxAttempts then MaxAttempts else k + 1) &&
            Count(t, HeartbeatK) == (if k == MaxAttempts then MaxAttempts - 1 else k) &&
            Count(t, WaitK) == k
  {
    TraceKindCount(event, s, QueryK);
    TraceKindCount(event, s, HeartbeatK);
    TraceKindCount(event, s, WaitK);
  }

  /** Resolve counts of every trace: CONTINUE once exactly when zero sessions were
      seen, and a second resolve exactly when the first one fails inside the `try`. */
  lemma ResolveCounts(event: Event, s: Script)
    requires ExtractRequest(event).Success?
    ensures var t := Reference(event, s).0;
            var k := FirstStop(s.metric, 0);
            Count(t, ContinueK) == (if k < MaxAttempts && ObservedZero(s.metric(k)) then 1 else 0) &&
            Count(t, ContinueK) + Count(t, AbandonK) == (if ResolveInTryFails(s) then 2 else 1)
  {
    TraceKindCount(event, s, ContinueK);
    TraceKindCount(event, s, AbandonK);
  }

  /** The invocation makes no call at all exactly when a field of the event is
      missing; it then raises KeyError naming that field. */
  lemma MalformedEventMakesNoCalls(event: Event, s: Script)
    ensures Reference(event, s).0 == [] <==> ExtractRequest(event).Failure?
    ensures ExtractRequest(event).Failure? ==>
              Reference(event, s).1 == Raised(KeyError(ExtractRequest(event).error))
  {
    if ExtractRequest(event).Success? {
      TraceLayout(event, s);
    }
  }

  /** No heartbeat on attempt 0; every heartbeat is for an attempt i >= 1, records the
      oracle's answer and is immediately followed by attempt i's query, whatever that
      answer was; every query of an attempt i >= 1 immediately follows its heartbeat. */
  lemma HeartbeatPrecedesQuery(event: Event, s: Script)
    ensures var t := Reference(event, s).0;
            (forall j :: 0 <= j < |t| && t[j].Heartbeat? ==>
               1 <= t[j].attempt < MaxAttempts && t[j].ok == s.heartbeatOk(t[j].attempt) &&
               j + 1 < |t| && t[j + 1] == Query(t[j].attempt, s.metric(t[j].attempt))) &&
            (forall j :: 0 <= j < |t| && t[j].Query? ==>
               t[j].attempt < MaxAttempts && t[j].reply == s.metric(t[j].attempt) &&
               (t[j].attempt == 0 <==> j == 0) &&
               (t[j].attempt > 0 ==> t[j - 1] == Heartbeat(t[j].attempt, s.heartbeatOk(t[j].attempt))))
  {
    var t := Reference(event, s).0;
    if ExtractRequest(event).Success? {
      TraceLayout(event, s);
      forall j | 0 <= j < |t| && t[j].Heartbeat?
        ensures 1 <= t[j].attempt < MaxAttempts && t[j].ok == s.heartbeatOk(t[j].attempt) &&
                j + 1 < |t| && t[j + 1] == Query(t[j].attempt, s.metric(t[j].attempt))
      {
        HeartbeatStep(t, s, j);
      }
      forall j | 0 <= j < |t| && t[j].Query?
        ensures t[j].attempt < MaxAttempts && t[j].reply == s.metric(t[j].attempt) &&
                (t[j].attempt == 0 <==> j == 0) &&
                (t[j].attempt > 0 ==> t[j - 1] == Heartbeat(t[j].attempt, s.heartbeatOk(t[j].attempt)))
      {
        QueryStep(t, s, j);
      }
    }
  }

  /** No attempt is heartbeated twice or queried twice. */
  lemma NoAttemptRepeated(event: Event, s: Script)
    ensures var t := Reference(event, s).0;
            (forall j1, j2 :: (0 <= j1 < |t| && 0 <= j2 < |t| && t[j1].Heartbeat? && t[j2].Heartbeat? &&
                               t[j1].attempt == t[j2].attempt) ==> j1 == j2) &&
            (forall j1, j2 :: (0 <= j1 < |t| && 0 <= j2 < |t| && t[j1].Query? && t[j2].Query? &&
                               t[j1].attempt == t[j2].attempt) ==> j1 == j2)
  {
    var t := Reference(event, s).0;
    if ExtractRequest(event).Success? {
      TraceLayout(event, s);
      forall j | 0 <= j < |t| && (t[j].Heartbeat? || t[j].Query?)
        ensures t[j].Heartbeat? ==> j == 3 * t[j].attempt - 1
        ensures t[j].Query? ==> j == 3 * t[j].attempt
      {
        if t[j].Heartbeat? {
          HeartbeatStep(t, s, j);
        } else {
          QueryStep(t, s, j);
        }
      }
    }
  }

  /** A query that neither raised nor saw zero is followed by exactly one wait of 300
      seconds and then by the next attempt's heartbeat, or, after attempt 11, by the
      exhaustion ABANDON: no resolve comes between. Every wait follows such a query. */
  lemma BusyQueryWaitsThenAdvances(event: Event, s: Script)
    ensures var t := Reference(event, s).0;
            (forall j :: 0 <= j < |t| && t[j].Query? && !EndsLoop(t[j].reply) ==>
               j + 2 < |t| && t[j + 1] == Wait(WaitSeconds) &&
               t[j + 2] == (if t[j].attempt + 1 < MaxAttempts
                            then Heartbeat(t[j].attempt + 1, s.heartbeatOk(t[j].attempt + 1))
                            else Resolve(Abandon, s.resolveOk(0)))) &&
            (forall j :: 0 <= j < |t| && t[j].Wait? ==>
               t[j] == Wait(WaitSeconds) && 1 <= j && t[j - 1].Query? && !EndsLoop(t[j - 1].reply))
  {
    var t := Reference(event, s).0;
    if ExtractRequest(event).Success? {
      TraceLayout(event, s);
      forall j | 0 <= j < |t| && t[j].Query? && !EndsLoop(t[j].reply)
        ensures j + 2 < |t| && t[j + 1] == Wait(WaitSeconds) &&
                t[j + 2] == (if t[j].attempt + 1 < MaxAttempts
                             then Heartbeat(t[j].attempt + 1, s.heartbeatOk(t[j].attempt + 1))
                             else Resolve(Abandon, s.resolveOk(0)))
      {
        BusyQueryNext(t, s, j);
      }
      forall j | 0 <= j < |t| && t[j].Wait?
        ensures t[j] == Wait(WaitSeconds) && 1 <= j && t[j - 1].Query? && !EndsLoop(t[j - 1].reply)
      {
        WaitStep(t, s, j);
      }
    }
  }

  /** After a query that raised or saw zero, the trace holds resolves only: no
      further heartbeat, query or wait. */
  lemma NothingButResolvesAfterStop(event: Event, s: Script)
    ensures var t := Reference(event, s).0;
            forall j, j' :: 0 <= j < j' < |t| && t[j].Query? && EndsLoop(t[j].reply) ==> t[j'].Resolve?
  {
    var t := Reference(event, s).0;
    if ExtractRequest(event).Success? {
      TraceLayout(event, s);
      forall j | 0 <= j < |t| && t[j].Query? && EndsLoop(t[j].reply)
        ensures j == PhaseLength(FirstStop(s.metric, 0)) - 1
      {
        StopQueryIsLast(t, s, j);
      }
    }
  }

  /** In a laid-out trace, a CONTINUE sits right after the attempt phase, which ends
      with a query that saw zero. */
  lemma ContinuePosition(t: seq<Action>, s: Script, j: nat)
    requires LaidOut(t, s) && j < |t| && t[j].Resolve? && t[j].result == Continue
    ensures var k := FirstStop(s.metric, 0);
            j == PhaseLength(k) && k < MaxAttempts && ObservedZero(s.metric(k))
  {
    assert j == PhaseLength(FirstStop(s.metric, 0));
  }

  /** In a laid-out trace, the query of every attempt up to the one at which the loop
      stops sits at three times its attempt. */
  lemma LaidOutQuery(t: seq<Action>, s: Script, i: nat)
    requires LaidOut(t, s) && i <= FirstStop(s.metric, 0) && i < MaxAttempts
    ensures t[3 * i] == Query(i, s.metric(i))
  {
    ActionAtAttempt(s, i);
  }

  /** A CONTINUE in a laid-out trace is its first resolve, right after the query of
      the attempt that ends the loop, and that query saw zero. */
  lemma ContinueStep(t: seq<Action>, s: Script, j: nat)
    requires LaidOut(t, s) && j < |t| && t[j].Resolve? && t[j].result == Continue
    ensures var k := FirstStop(s.metric, 0);
            k < MaxAttempts && ObservedZero(s.metric(k)) &&
            j == 3 * k + 1 && t[j - 1] == Query(k, s.metric(k))
  {
    ContinuePosition(t, s, j);
    LaidOutQuery(t, s, FirstStop(s.metric, 0));
  }

  /** CONTINUE is only ever issued right after a query whose first datapoint is 0;
      every other resolve is ABANDON. */
  lemma ContinueOnlyAfterObservedZero(event: Event, s: Script)
    ensures var t := Reference(event, s).0;
            forall j :: 0 <= j < |t| && t[j].Resolve? && t[j].result == Continue ==>
              1 <= j && t[j - 1].Query? && ObservedZero(t[j - 1].reply)
  {
    var t := Reference(event, s).0;
    if ExtractRequest(event).Success? {
      TraceLayout(event, s);
      forall j | 0 <= j < |t| && t[j].Resolve? && t[j].result == Continue
        ensures 1 <= j && t[j - 1].Query? && ObservedZero(t[j - 1].reply)
      {
        ContinueStep(t, s, j);
      }
    }
  }

  /** CONTINUE is issued at most once, and exactly when some attempt observes zero
      before any query raises. The handler reports "Instance can be terminated"
      exactly when that CONTINUE succeeded. */
  lemma ContinueIffZeroObserved(event: Event, s: Script)
    ensures var (t, exit) := Reference(event, s);
            Count(t, ContinueK) <= 1 &&
            (Count(t, ContinueK) == 1 <==>
               ExtractRequest(event).Success? && FirstStop(s.metric, 0) < MaxAttempts &&
               ObservedZero(s.metric(FirstStop(s.metric, 0)))) &&
            (exit == Returned(200, TerminableBody) <==> Count(t, ContinueK) == 1 && s.resolveOk(0))
  {
    if ExtractRequest(event).Success? {
      TraceKindCount(event, s, ContinueK);
    }
  }

  /** Every invocation past field extraction ends with a resolve call; there are one
      or two of them, two exactly when the resolve inside the `try` raised; the
      invocation raises exactly when its last resolve raised, and otherwise returns
      status 200. */
  lemma ResolveCalls(event: Event, s: Script)
    requires ExtractRequest(event).Success?
    ensures var (t, exit) := Reference(event, s);
            |t| > 0 && t[|t| - 1].Resolve? &&
            Count(t, ContinueK) + Count(t, AbandonK) == (if ResolveInTryFails(s) then 2 else 1) &&
            (exit.Raised? <==> !t[|t| - 1].ok) &&
            (exit.Raised? ==> exit.error == ResolveFailed) &&
            (exit.Returned? ==> exit.statusCode == 200)
  {
    TraceLayout(event, s);
    ResolveCounts(event, s);
  }

  /** The quirk of the `except` branch: when the resolve inside the `try` raises, a
      second complete_lifecycle_action (ABANDON) is issued for the same hook. */
  lemma SecondResolveAfterFailedResolve(event: Event, s: Script)
    requires ExtractRequest(event).Success?
    requires ResolveInTryFails(s)
    ensures var t := Reference(event, s).0;
            Count(t, ContinueK) + Count(t, AbandonK) == 2 &&
            |t| >= 2 && t[|t| - 2].Resolve? && !t[|t| - 2].ok &&
            t[|t| - 1] == Resolve(Abandon, s.resolveOk(1))
  {
    TraceLayout(event, s);
    ResolveCounts(event, s);
  }

  /** The first datapoint is 0 on attempt k (and no earlier attempt ended the loop) and
      CONTINUE succeeds: k+1 queries, k heartbeats, k waits, then a single CONTINUE as
      the last call, and the handler returns 200 "Instance can be terminated". */
  lemma ProceedOnZero(event: Event, s: Script, k: nat)
    requires ExtractRequest(event).Success?
    requires k < MaxAttempts && forall j :: 0 <= j < k ==> !EndsLoop(s.metric(j))
    requires ObservedZero(s.metric(k)) && s.resolveOk(0)
    ensures var (t, exit) := Reference(event, s);
            exit == Returned(200, TerminableBody) &&
            |t| == 3 * k + 2 && t[|t| - 1] == Resolve(Continue, true) &&
            t[|t| - 2] == Query(k, s.metric(k)) &&
            Count(t, QueryK) == k + 1 && Count(t, HeartbeatK) == k && Count(t, WaitK) == k &&
            Count(t, ContinueK) == 1 && Count(t, AbandonK) == 0
  {
    assert FirstStop(s.metric, 0) == k;
    var phase := AttemptPhase(s);
    assert Reference(event, s).0 == phase + [Resolve(Continue, true)];
    assert phase[|phase| - 1] == Query(k, s.metric(k));
    AttemptCounts(event, s);
    ResolveCounts(event, s);
  }

  /** The first datapoint is 0 on attempt k but the CONTINUE raises: the `except`
      branch issues ABANDON, and the invocation raises exactly when that one does. */
  lemma FailedContinueAbandons(event: Event, s: Script, k: nat)
    requires ExtractRequest(event).Success?
    requires k < MaxAttempts && forall j :: 0 <= j < k ==> !EndsLoop(s.metric(j))
    requires ObservedZero(s.metric(k)) && !s.resolveOk(0)
    ensures var (t, exit) := Reference(event, s);
            |t| == 3 * k + 3 &&
            t[|t| - 2] == Resolve(Continue, false) && t[|t| - 1] == Resolve(Abandon, s.resolveOk(1)) &&
            Count(t, QueryK) == k + 1 && Count(t, ContinueK) == 1 && Count(t, AbandonK) == 1 &&
            exit == (if s.resolveOk(1) then Returned(200, CompletedBody) else Raised(ResolveFailed))
  {
    assert FirstStop(s.metric, 0) == k;
    var phase := AttemptPhase(s);
    assert Reference(event, s).0 == phase + [Resolve(Continue, false), Resolve(Abandon, s.resolveOk(1))];
    AttemptCounts(event, s);
    ResolveCounts(event, s);
  }

  /** No attempt observes zero and no query raises: 12 queries, 11 heartbeats and 12
      waits, then one ABANDON; when it succeeds the handler returns 200 "Function
      completed successfully", and when it raises the `except` branch abandons again. */
  lemma ExhaustionAbandons(event: Event, s: Script)
    requires ExtractRequest(event).Success?
    requires forall j :: 0 <= j < MaxAttempts ==> !EndsLoop(s.metric(j))
    ensures var (t, exit) := Reference(event, s);
            Count(t, QueryK) == 12 && Count(t, HeartbeatK) == 11 && Count(t, WaitK) == 12 &&
            Count(t, ContinueK) == 0 &&
            t[34] == Wait(WaitSeconds) && t[35] == Resolve(Abandon, s.resolveOk(0)) &&
            (s.resolveOk(0) ==> |t| == 36 && Count(t, AbandonK) == 1 &&
                                exit == Returned(200, CompletedBody)) &&
            (!s.resolveOk(0) ==> |t| == 37 && Count(t, AbandonK) == 2 &&
                                 t[36] == Resolve(Abandon, s.resolveOk(1)) &&
                                 exit == (if s.resolveOk(1) then Returned(200, CompletedBody)
                                          else Raised(ResolveFailed)))
  {
    assert FirstStop(s.metric, 0) == MaxAttempts;
    var phase := AttemptPhase(s);
    assert Reference(event, s).0 == phase + ResolveTail(s);
    assert phase[|phase| - 1] == Wait(WaitSeconds);
    AttemptCounts(event, s);
    ResolveCounts(event, s);
  }

  /** The metric query raises on attempt k (no earlier attempt ended the loop): no
      further attempt, k+1 queries, one resolve, the `except` branch's ABANDON; the
      invocation returns 200 if it succeeds and raises if it does not. */
  lemma QueryErrorAbandons(event: Event, s: Script, k: nat)
    requires ExtractRequest(event).Success?
    requires k < MaxAttempts && forall j :: 0 <= j < k ==> !EndsLoop(s.metric(j))
    requires s.metric(k).Raises?
    ensures var (t, exit) := Reference(event, s);
            |t| == 3 * k + 2 && t[|t| - 2] == Query(k, Raises) &&
            t[|t| - 1] == Resolve(Abandon, s.resolveOk(0)) &&
            Count(t, QueryK) == k + 1 && Count(t, HeartbeatK) == k && Count(t, WaitK) == k &&
            Count(t, ContinueK) == 0 && Count(t, AbandonK) == 1 &&
            exit == (if s.resolveOk(0) then Returned(200, CompletedBody) else Raised(ResolveFailed))
  {
    assert FirstStop(s.metric, 0) == k;
    var phase := AttemptPhase(s);
    assert Reference(event, s).0 == phase + [Resolve(Abandon, s.resolveOk(0))];
    assert phase[|phase| - 1] == Query(k, s.metric(k));
    AttemptCounts(event, s);
    ResolveCounts(event, s);
  }

  /** Every invocation is bounded: at most 12 queries, 11 heartbeats, 12 waits of
      300 seconds (one hour of waiting) and 2 resolves, 37 calls in all. */
  lemma CallsBounded(event: Event, s: Script)
    ensures var t := Reference(event, s).0;
            |t| <= 37 && Count(t, QueryK) <= MaxAttempts && Count(t, HeartbeatK) < MaxAttempts &&
            Count(t, WaitK) * WaitSeconds <= 3600 && Count(t, ContinueK) + Count(t, AbandonK) <= 2
  {
    if ExtractRequest(event).Success? {
      TraceLayout(event, s);
      AttemptCounts(event, s);
      ResolveCounts(event, s);
    }
  }

  /** The same step with a heartbeat's outcome forgotten. */
  function Blind(a: Action): Action {
    if a.Heartbeat? then Heartbeat(a.attempt, true) else a
  }

  /** The heartbeat outcomes do not change where the loop stops nor how the `try`
      block ends. */
  lemma TryEndIgnoresHeartbeat(s: Script, heartbeatOk: nat -> bool)
    ensures var s2 := s.(heartbeatOk := heartbeatOk);
            FirstStop(s2.metric, 0) == FirstStop(s.metric, 0) &&
            TryBlock(s2).1 == TryBlock(s).1 && ResolveTail(s2) == ResolveTail(s)
  {
  }

  /** The attempt phases under two heartbeat scripts agree but for heartbeat outcomes. */
  lemma PhaseIgnoresHeartbeat(s: Script, heartbeatOk: nat -> bool)
    ensures var p1 := AttemptPhase(s);
            var p2 := AttemptPhase(s.(heartbeatOk := heartbeatOk));
            |p1| == |p2| && forall j :: 0 <= j < |p1| ==> Blind(p1[j]) == Blind(p2[j])
  {
    var s2 := s.(heartbeatOk := heartbeatOk);
    var p1, p2 := AttemptPhase(s), AttemptPhase(s2);
    TryEndIgnoresHeartbeat(s, heartbeatOk);
    AttemptPhaseAt(s, 0);
    AttemptPhaseAt(s2, 0);
    forall j | 0 <= j < |p1| ensures Blind(p1[j]) == Blind(p2[j]) {
      AttemptPhaseAt(s, j);
      AttemptPhaseAt(s2, j);
    }
  }

  /** A heartbeat's outcome changes nothing but its own entry in the trace: the same
      attempts, queries, waits and resolves, and the same result. */
  lemma HeartbeatOutcomeIgnored(event: Event, s: Script, heartbeatOk: nat -> bool)
    ensures var (t1, exit1) := Reference(event, s);
            var (t2, exit2) := Reference(event, s.(heartbeatOk := heartbeatOk));
            |t1| == |t2| && exit1 == exit2 &&
            forall j :: 0 <= j < |t1| ==> Blind(t1[j]) == Blind(t2[j])
  {
    var s2 := s.(heartbeatOk := heartbeatOk);
    if ExtractRequest(event).Success? {
      Decompose(event, s);
      Decompose(event, s2);
      TryEndIgnoresHeartbeat(s, heartbeatOk);
      PhaseIgnoresHeartbeat(s, heartbeatOk);
      var p1, p2, tail := AttemptPhase(s), AttemptPhase(s2), ResolveTail(s);
      var t1, t2 := Reference(event, s).0, Reference(event, s2).0;
      forall j | 0 <= j < |t1| ensures Blind(t1[j]) == Blind(t2[j]) {
        if j >= |p1| {
          assert t1[j] == tail[j - |p1|] == t2[j];
        }
      }
    }
  }
}
