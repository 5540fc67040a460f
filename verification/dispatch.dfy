/**
 * The message loop. Each pass sends every message of the list, in order,
 * with one pooled session; a failed send is logged and skipped, a successful
 * one is followed by the configured pause. After a pass the cursor moves to
 * the next session, wrapping around the pool; without looping the run ends
 * when the cursor is back at the first session.
 */
module Dispatch {
  import opened Errors
  import opened Lines
  import opened Pool

  /** What the loop does, in order: a send attempt and its outcome, or a pause. */
  datatype Event =
    | Send(session: nat, msg: string, ok: bool)
    | Sleep(delay: int)

  /** Whether the send of the message at a position in a given pass succeeded. */
  type SendOracle = (nat, nat) -> bool

  /** One pass: every message sent with session `cursor`, a pause after each success. */
  function PassTrace(cursor: nat, pass: nat, msgs: seq<string>, delay: int, sent: SendOracle): seq<Event>
    decreases |msgs|
  {
    if |msgs| == 0 then []
    else
      var i := |msgs| - 1;
      var ok := sent(pass, i);
      PassTrace(cursor, pass, msgs[..i], delay, sent) + [Send(cursor, msgs[i], ok)]
        + (if ok then [Sleep(delay)] else [])
  }

  /** The dispatcher's state between passes. */
  datatype Loop = Loop(cursor: nat, passes: nat, trace: seq<Event>)

  /** One pass with the current session, then the cursor moves on modulo the pool size. */
  function Rotate(n: nat, s: Loop, msgs: seq<string>, delay: int, sent: SendOracle): Loop
    requires n > 0
  {
    Loop((s.cursor + 1) % n, s.passes + 1, s.trace + PassTrace(s.cursor, s.passes, msgs, delay, sent))
  }

  /** The state after `k` passes, starting from the first session. */
  function RunPasses(k: nat, n: nat, msgs: seq<string>, delay: int, sent: SendOracle): Loop
    requires n > 0
  {
    if k == 0 then Loop(0, 0, []) else Rotate(n, RunPasses(k - 1, n, msgs, delay, sent), msgs, delay, sent)
  }

  /** The send attempts of a trace, pauses left out. */
  function Attempts(t: seq<Event>): (a: seq<Event>)
    ensures |a| <= |t|
    ensures forall k :: 0 <= k < |a| ==> a[k].Send?
  {
    if |t| == 0 then []
    else Attempts(t[..|t| - 1]) + (if t[|t| - 1].Send? then [t[|t| - 1]] else [])
  }

  /** The number of successful sends in a trace. */
  function Successes(t: seq<Event>): nat {
    if |t| == 0 then 0
    else Successes(t[..|t| - 1]) + (if t[|t| - 1].Send? && t[|t| - 1].ok then 1 else 0)
  }

  /** The number of pauses in a trace. */
  function Sleeps(t: seq<Event>): nat {
    if |t| == 0 then 0
    else Sleeps(t[..|t| - 1]) + (if t[|t| - 1].Sleep? then 1 else 0)
  }

  /** Every pause directly follows a successful send, and every successful send is directly followed by a pause. */
  predicate Paced(t: seq<Event>, delay: int) {
    forall i :: 0 <= i < |t| ==> PacedAt(t, i, delay)
  }

  /** The event at position `i` keeps the pacing rule. */
  predicate PacedAt(t: seq<Event>, i: nat, delay: int)
    requires i < |t|
  {
    && (t[i].Sleep? ==> i > 0 && t[i - 1].Send? && t[i - 1].ok && t[i].delay == delay)
    && (t[i].Send? && t[i].ok ==> i + 1 < |t| && t[i + 1] == Sleep(delay))
  }

  /** After `k` passes the cursor is `k` modulo the pool size. */
  lemma {:induction false} CursorAfterPasses(k: nat, n: nat, msgs: seq<string>, delay: int, sent: SendOracle)
    requires n > 0
    ensures RunPasses(k, n, msgs, delay, sent).cursor == k % n
    ensures RunPasses(k, n, msgs, delay, sent).passes == k
  {
    if k > 0 {
      CursorAfterPasses(k - 1, n, msgs, delay, sent);
      ModSucc(k - 1, n);
    }
  }

  lemma ModSucc(k: nat, n: nat)
    requires n > 0
    ensures (k % n + 1) % n == (k + 1) % n
  {
    var q, r := k / n, k % n;
    assert k == q * n + r;
    if r + 1 < n {
      DivModUnique(q, n, r + 1);
      assert (k + 1) % n == (q * n + (r + 1)) % n;
      DivModUnique(0, n, r + 1);
      assert (r + 1) % n == (0 * n + (r + 1)) % n;
    } else {
      DivModUnique(q + 1, n, 0);
      assert (k + 1) % n == ((q + 1) * n + 0) % n;
      DivModUnique(1, n, 0);
      assert (r + 1) % n == (1 * n + 0) % n;
    }
  }

  lemma MulMono(a: int, b: int, n: int)
    requires a <= b && n >= 0
    ensures a * n <= b * n
  {
  }

  /** Division by `n` recovers quotient and remainder. */
  lemma DivModUnique(q: nat, n: nat, r: nat)
    requires n > 0 && r < n
    ensures (q * n + r) / n == q && (q * n + r) % n == r
  {
    var j := q * n + r;
    var q', r' := j / n, j % n;
    assert j == q' * n + r';
    if q' > q {
      assert (q + 1) * n == q * n + n;
      MulMono(q + 1, q', n);
    } else if q' < q {
      assert (q' + 1) * n == q' * n + n;
      MulMono(q' + 1, q, n);
    }
  }

  lemma {:induction false} AttemptsAppend(a: seq<Event>, b: seq<Event>)
    ensures Attempts(a + b) == Attempts(a) + Attempts(b)
    decreases |b|
  {
    if |b| > 0 {
      AttemptsAppend(a, b[..|b| - 1]);
      assert (a + b)[..|a + b| - 1] == a + b[..|b| - 1];
    } else {
      assert a + b == a;
    }
  }

  lemma {:induction false} CountsAppend(a: seq<Event>, b: seq<Event>)
    ensures Successes(a + b) == Successes(a) + Successes(b)
    ensures Sleeps(a + b) == Sleeps(a) + Sleeps(b)
    decreases |b|
  {
    if |b| > 0 {
      CountsAppend(a, b[..|b| - 1]);
      assert (a + b)[..|a + b| - 1] == a + b[..|b| - 1];
    } else {
      assert a + b == a;
    }
  }

  /** The attempts of one pass, message by message. */
  function PassAttempts(cursor: nat, pass: nat, msgs: seq<string>, sent: SendOracle): seq<Event> {
    seq(|msgs|, i requires 0 <= i < |msgs| => Send(cursor, msgs[i], sent(pass, i)))
  }

  /**
   * Within a pass every message is attempted exactly once, in list order,
   * all with the same session, whatever the outcome of earlier sends.
   */
  lemma {:induction false} PassAttemptsInOrder(cursor: nat, pass: nat, msgs: seq<string>, delay: int, sent: SendOracle)
    ensures Attempts(PassTrace(cursor, pass, msgs, delay, sent)) == PassAttempts(cursor, pass, msgs, sent)
    decreases |msgs|
  {
    if |msgs| > 0 {
      var i := |msgs| - 1;
      var ok := sent(pass, i);
      var send := Send(cursor, msgs[i], ok);
      var head := PassTrace(cursor, pass, msgs[..i], delay, sent);
      var tail := (if ok then [Sleep(delay)] else []);
      assert PassTrace(cursor, pass, msgs, delay, sent) == head + [send] + tail;
      PassAttemptsInOrder(cursor, pass, msgs[..i], delay, sent);
      AttemptsOfSend(head, send, tail);
      PassAttemptsStep(cursor, pass, msgs, sent);
    }
  }

  /** A send followed by pauses adds exactly that send to the attempts. */
  lemma AttemptsOfSend(head: seq<Event>, send: Event, tail: seq<Event>)
    requires send.Send? && forall k :: 0 <= k < |tail| ==> tail[k].Sleep?
    requires |tail| <= 1
    ensures Attempts(head + [send] + tail) == Attempts(head) + [send]
  {
    AttemptsAppend(head, [send]);
    AttemptsAppend(head + [send], tail);
    assert Attempts([send]) == Attempts([]) + [send];
    if |tail| == 1 {
      assert Attempts(tail) == Attempts([]) + [];
    }
  }

  /** The attempts of a pass grow by the last message's attempt. */
  lemma PassAttemptsStep(cursor: nat, pass: nat, msgs: seq<string>, sent: SendOracle)
    requires |msgs| > 0
    ensures PassAttempts(cursor, pass, msgs, sent) ==
      PassAttempts(cursor, pass, msgs[..|msgs| - 1], sent) + [Send(cursor, msgs[|msgs| - 1], sent(pass, |msgs| - 1))]
  {
  }

  /** A pass pauses exactly as often as it sends successfully, right after each success. */
  lemma {:induction false} PassPaced(cursor: nat, pass: nat, msgs: seq<string>, delay: int, sent: SendOracle)
    ensures Paced(PassTrace(cursor, pass, msgs, delay, sent), delay)
    ensures Sleeps(PassTrace(cursor, pass, msgs, delay, sent)) == Successes(PassTrace(cursor, pass, msgs, delay, sent))
    decreases |msgs|
  {
    if |msgs| > 0 {
      var i := |msgs| - 1;
      var ok := sent(pass, i);
      var head := PassTrace(cursor, pass, msgs[..i], delay, sent);
      var tail := [Send(cursor, msgs[i], ok)] + (if ok then [Sleep(delay)] else []);
      PassPaced(cursor, pass, msgs[..i], delay, sent);
      assert PassTrace(cursor, pass, msgs, delay, sent) == head + tail;
      SendPaced(cursor, msgs[i], ok, delay);
      PacedAppend(head, tail, delay);
      CountsAppend(head, tail);
    }
  }

  /** One send, with its pause when it succeeded, keeps the pacing rule. */
  lemma SendPaced(cursor: nat, msg: string, ok: bool, delay: int)
    ensures var t := [Send(cursor, msg, ok)] + (if ok then [Sleep(delay)] else []);
      Paced(t, delay) && Sleeps(t) == Successes(t)
  {
    var send := [Send(cursor, msg, ok)];
    assert send[..|send| - 1] == [];
    assert Sleeps(send) == Sleeps([]) + 0;
    assert Successes(send) == Successes([]) + (if ok then 1 else 0);
    if ok {
      var t := send + [Sleep(delay)];
      assert t[..1] == send;
      assert PacedAt(t, 0, delay) && PacedAt(t, 1, delay);
    } else {
      assert send + [] == send;
      assert PacedAt(send, 0, delay);
    }
  }

  /** Paced traces stay paced when put one after the other. */
  lemma PacedAppend(a: seq<Event>, b: seq<Event>, delay: int)
    requires Paced(a, delay) && Paced(b, delay)
    ensures Paced(a + b, delay)
  {
    var t := a + b;
    forall i | 0 <= i < |t|
      ensures PacedAt(t, i, delay)
    {
      if i < |a| {
        assert PacedAt(a, i, delay);
        assert t[i] == a[i];
        if i > 0 { assert t[i - 1] == a[i - 1]; }
        if i + 1 < |a| { assert t[i + 1] == a[i + 1]; }
      } else {
        var j := i - |a|;
        assert PacedAt(b, j, delay);
        assert t[i] == b[j];
        if j > 0 { assert t[i - 1] == b[j - 1]; }
        if j + 1 < |b| { assert t[i + 1] == b[j + 1]; }
      }
    }
  }

  /** Every trace the loop produces keeps the pacing rule, so it pauses exactly once per successful send. */
  lemma {:induction false} RunPaced(k: nat, n: nat, msgs: seq<string>, delay: int, sent: SendOracle)
    requires n > 0
    ensures Paced(RunPasses(k, n, msgs, delay, sent).trace, delay)
    ensures Sleeps(RunPasses(k, n, msgs, delay, sent).trace) == Successes(RunPasses(k, n, msgs, delay, sent).trace)
  {
    if k > 0 {
      var prev := RunPasses(k - 1, n, msgs, delay, sent);
      var pass := PassTrace(prev.cursor, prev.passes, msgs, delay, sent);
      RunPaced(k - 1, n, msgs, delay, sent);
      PassPaced(prev.cursor, prev.passes, msgs, delay, sent);
      PacedAppend(prev.trace, pass, delay);
      CountsAppend(prev.trace, pass);
    }
  }

  /**
   * The send attempts of `k` passes, as a closed form: attempt `j` is message
   * `j mod |msgs|` of the list, in pass `j div |msgs|`, sent with the session
   * that pass is at modulo the pool size.
   */
  function ExpectedAttempts(k: nat, n: nat, msgs: seq<string>, sent: SendOracle): seq<Event>
    requires n > 0 && |msgs| > 0
  {
    seq(k * |msgs|, j requires 0 <= j < k * |msgs| => AttemptAt(j, n, msgs, sent))
  }

  /** Attempt `j` counted over all passes: message `j mod |msgs|` of pass `j div |msgs|`. */
  function AttemptAt(j: nat, n: nat, msgs: seq<string>, sent: SendOracle): Event
    requires n > 0 && |msgs| > 0
  {
    var m := |msgs|;
    Send((j / m) % n, msgs[j % m], sent(j / m, j % m))
  }

  /** Pass `k - 1` contributes the last |msgs| of the first `k` passes' attempts. */
  lemma ExpectedStep(k: nat, n: nat, msgs: seq<string>, sent: SendOracle, cursor: nat)
    requires n > 0 && |msgs| > 0 && k > 0 && cursor == (k - 1) % n
    ensures ExpectedAttempts(k, n, msgs, sent) ==
      ExpectedAttempts(k - 1, n, msgs, sent) + PassAttempts(cursor, k - 1, msgs, sent)
  {
    var m := |msgs|;
    var p := k - 1;
    var e := ExpectedAttempts(k, n, msgs, sent);
    var f := ExpectedAttempts(p, n, msgs, sent) + PassAttempts(cursor, p, msgs, sent);
    assert k * m == p * m + m;
    forall j | p * m <= j < k * m
      ensures e[j] == f[j]
    {
      DivModUnique(p, m, j - p * m);
    }
  }

  /**
   * Over `k` passes the loop attempts every message once per pass, in list
   * order, pass after pass, each pass with the session the cursor points
   * at; a failed send changes neither the session nor the next message.
   */
  lemma {:induction false} RunAttempts(k: nat, n: nat, msgs: seq<string>, delay: int, sent: SendOracle)
    requires n > 0 && |msgs| > 0
    ensures Attempts(RunPasses(k, n, msgs, delay, sent).trace) == ExpectedAttempts(k, n, msgs, sent)
  {
    if k == 0 {
      assert |ExpectedAttempts(0, n, msgs, sent)| == 0 * |msgs| == 0;
    } else {
      RunAttempts(k - 1, n, msgs, delay, sent);
      RunAttemptsStep(k, n, msgs, delay, sent);
    }
  }

  /** One more pass appends that pass's attempts, with the session the cursor has reached. */
  lemma RunAttemptsStep(k: nat, n: nat, msgs: seq<string>, delay: int, sent: SendOracle)
    requires n > 0 && |msgs| > 0 && k > 0
    requires Attempts(RunPasses(k - 1, n, msgs, delay, sent).trace) == ExpectedAttempts(k - 1, n, msgs, sent)
    ensures Attempts(RunPasses(k, n, msgs, delay, sent).trace) == ExpectedAttempts(k, n, msgs, sent)
  {
    var prev := RunPasses(k - 1, n, msgs, delay, sent);
    var t := RunPasses(k, n, msgs, delay, sent).trace;
    CursorAfterPasses(k - 1, n, msgs, delay, sent);
    var pass := PassTrace(prev.cursor, prev.passes, msgs, delay, sent);
    PassAttemptsInOrder(prev.cursor, prev.passes, msgs, delay, sent);
    calc {
      Attempts(t);
    == { assert t == prev.trace + pass; AttemptsAppend(prev.trace, pass); }
      Attempts(prev.trace) + Attempts(pass);
    ==
      ExpectedAttempts(k - 1, n, msgs, sent) + PassAttempts(prev.cursor, k - 1, msgs, sent);
    == { ExpectedStep(k, n, msgs, sent, prev.cursor); }
      ExpectedAttempts(k, n, msgs, sent);
    }
  }

  /** `k` passes make exactly k * |msgs| send attempts, whatever their outcomes. */
  lemma AttemptCount(k: nat, n: nat, msgs: seq<string>, delay: int, sent: SendOracle)
    requires n > 0
    ensures |Attempts(RunPasses(k, n, msgs, delay, sent).trace)| == k * |msgs|
  {
    if |msgs| > 0 {
      RunAttempts(k, n, msgs, delay, sent);
    } else {
      EmptyMessages(k, n, delay, sent);
    }
  }

  /** An empty message list is no error: the passes happen, but nothing is sent and nothing waits. */
  lemma {:induction false} EmptyMessages(k: nat, n: nat, delay: int, sent: SendOracle)
    requires n > 0
    ensures RunPasses(k, n, [], delay, sent).trace == []
    ensures RunPasses(k, n, [], delay, sent).passes == k
  {
    if k > 0 {
      EmptyMessages(k - 1, n, delay, sent);
    }
  }

  /**
   * The inner loop of StartMessageLoop: every message in list order with the
   * session at `cursor`; a failed send is skipped at once, a successful one
   * is followed by a pause.
   */
  method SendPass(cursor: nat, pass: nat, messages: seq<string>, delay: int, sent: SendOracle)
    returns (events: seq<Event>)
    ensures events == PassTrace(cursor, pass, messages, delay, sent)
  {
    events := [];
    var i := 0;
    while i < |messages|
      invariant 0 <= i <= |messages|
      invariant events == PassTrace(cursor, pass, messages[..i], delay, sent)
    {
      assert messages[..i + 1][..i] == messages[..i];
      var ok := sent(pass, i);
      events := events + [Send(cursor, messages[i], ok)];
      if !ok {
        i := i + 1;
        continue;
      }
      events := events + [Sleep(delay)];
      i := i + 1;
    }
    assert messages[..|messages|] == messages;
  }

  /** The passes a run makes: one full rotation of the pool without looping; when looping, the passes observed (at least one). */
  function PassesRun(n: nat, shouldLoop: bool, horizon: nat): nat {
    if !shouldLoop then n else if horizon == 0 then 1 else horizon
  }

  /** The loop's stop test is met exactly when the last pass of the run is done. */
  lemma StopRule(p: nat, n: nat, shouldLoop: bool, horizon: nat)
    requires n > 0 && 1 <= p <= PassesRun(n, shouldLoop, horizon)
    ensures ((!shouldLoop && p % n == 0) || (shouldLoop && p >= horizon)) <==> p == PassesRun(n, shouldLoop, horizon)
  {
    if !shouldLoop && p < n {
      DivModUnique(0, n, p);
      assert p % n == (0 * n + p) % n;
    }
    if !shouldLoop && p == n {
      DivModUnique(1, n, 0);
      assert p % n == (1 * n + 0) % n;
    }
  }

  /**
   * StartMessageLoop: read the message list, then run the pass loop. An
   * unreadable message file is the only error; an empty list is not one.
   */
  method StartMessageLoop(pool: seq<UserSession>, msgFile: File, delay: int, shouldLoop: bool,
                          sent: SendOracle, horizon: nat) returns (r: Result<Loop>)
    requires |pool| > 0
    ensures r.Err? <==> !msgFile.Contents?
    ensures r.Err? ==> r.error == MessagesUnreadable
    ensures r.Ok? ==> r.value == RunPasses(PassesRun(|pool|, shouldLoop, horizon), |pool|, ReadFile(msgFile).value, delay, sent)
  {
    var read := ReadFile(msgFile);
    if read.None? {
      return Err(MessagesUnreadable);
    }
    var run := MessageLoop(|pool|, read.value, delay, shouldLoop, sent, horizon);
    return Ok(run);
  }

  /**
   * The pass loop of StartMessageLoop over a pool of `n` sessions, starting
   * with the first one and moving to the next after every pass. Without
   * looping it stops as soon as the cursor wraps back to the first session;
   * with looping it never stops by itself, and `horizon` is the number of
   * passes observed.
   */
  method MessageLoop(n: nat, messages: seq<string>, delay: int, shouldLoop: bool,
                     sent: SendOracle, horizon: nat) returns (run: Loop)
    requires n > 0
    ensures run == RunPasses(PassesRun(n, shouldLoop, horizon), n, messages, delay, sent)
    ensures run.cursor == run.passes % n
    ensures !shouldLoop ==> run.passes == n && run.cursor == 0
    ensures !shouldLoop ==> |Attempts(run.trace)| == n * |messages|
    ensures Paced(run.trace, delay) && Sleeps(run.trace) == Successes(run.trace)
  {
    ghost var limit := PassesRun(n, shouldLoop, horizon);
    var cursor: nat := 0;
    var passes: nat := 0;
    var trace: seq<Event> := [];
    var done := false;
    while !done
      invariant passes <= limit
      invariant done <==> passes == limit
      invariant Loop(cursor, passes, trace) == RunPasses(passes, n, messages, delay, sent)
      invariant cursor == passes % n
      decreases limit - passes
    {
      var events := SendPass(cursor, passes, messages, delay, sent);
      RotateStep(passes, n, messages, delay, sent, cursor, trace, events);
      StopRule(passes + 1, n, shouldLoop, horizon);
      trace := trace + events;
      cursor := (cursor + 1) % n;
      passes := passes + 1;
      if !shouldLoop && cursor == 0 {
        done := true;
      } else if shouldLoop && passes >= horizon {
        done := true;
      }
    }
    RunFacts(passes, n, messages, delay, sent);
    assert n % n == 0;
    run := Loop(cursor, passes, trace);
  }

  /** One pass of the loop body takes the state after `passes` passes to the state after one more. */
  lemma RotateStep(passes: nat, n: nat, msgs: seq<string>, delay: int, sent: SendOracle,
                   cursor: nat, trace: seq<Event>, events: seq<Event>)
    requires n > 0 && cursor == passes % n
    requires Loop(cursor, passes, trace) == RunPasses(passes, n, msgs, delay, sent)
    requires events == PassTrace(cursor, passes, msgs, delay, sent)
    ensures Loop((cursor + 1) % n, passes + 1, trace + events) == RunPasses(passes + 1, n, msgs, delay, sent)
    ensures (cursor + 1) % n == (passes + 1) % n
  {
    ModSucc(passes, n);
  }

  /** What holds of the trace after `k` passes, gathered for the loop's exit. */
  lemma RunFacts(k: nat, n: nat, msgs: seq<string>, delay: int, sent: SendOracle)
    requires n > 0
    ensures Paced(RunPasses(k, n, msgs, delay, sent).trace, delay)
    ensures Sleeps(RunPasses(k, n, msgs, delay, sent).trace) == Successes(RunPasses(k, n, msgs, delay, sent).trace)
    ensures |Attempts(RunPasses(k, n, msgs, delay, sent).trace)| == k * |msgs|
  {
    RunPaced(k, n, msgs, delay, sent);
    AttemptCount(k, n, msgs, delay, sent);
  }

  /**
   * Start-up followed by one dispatch run, with the corrected
   * initialisation: a run only starts with at least one pooled session, so
   * the loop never indexes an empty pool.
   */
  method InitializeThenSend(tokenFile: File, provider: Provider, msgFile: File, delay: int,
                            shouldLoop: bool, sent: SendOracle, horizon: nat) returns (r: Result<Loop>)
    ensures InitializeWithAccounts(tokenFile, provider).Err? ==> r == Err(InitializeWithAccounts(tokenFile, provider).error)
    ensures InitializeWithAccounts(tokenFile, provider).Ok? ==> (r.Err? <==> !msgFile.Contents?)
    ensures r.Ok? ==> var n := |InitializeWithAccounts(tokenFile, provider).value.pool|;
      n > 0 && r.value == RunPasses(PassesRun(n, shouldLoop, horizon), n, ReadFile(msgFile).value, delay, sent)
  {
    var init := InitializeWithAccounts(tokenFile, provider);
    if init.Err? {
      return Err(init.error);
    }
    r := StartMessageLoop(init.value.pool, msgFile, delay, shouldLoop, sent, horizon);
  }
}
