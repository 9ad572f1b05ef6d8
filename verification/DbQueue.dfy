/** The per-database write queue (server/queue/queue.go) as a system of atomic steps.

    Every goroutine of the program is a source of steps: any number of Enqueue calls, one
    worker per database, context cancellations, and one Stop. A run is any interleaving of
    enabled steps. Closures are arbitrary functions on the state of their own database. */
module DbQueue {
  import opened Prelude

  // ---- What one database's channel and worker look like ---------------------------------

  /** A queued closure, with the identity of the Enqueue call (and reply channel) it serves. */
  datatype Job<!S, !R> = Job(call: nat, fn: S -> (S, R))

  /** The program counter of runWorker. */
  datatype Phase<!S, !R> =
    | Idle
    | Busy(job: Job<S, R>)
    | Replying(job: Job<S, R>, result: R)
    | Exited

  /** One bounded FIFO channel, its single worker, and the database state the worker writes.
      accepted and executed are the histories of completed sends and of completed closures. */
  datatype Db<!S, !R> = Db(
    buf: seq<Job<S, R>>, closed: bool, phase: Phase<S, R>, state: S,
    accepted: seq<Job<S, R>>, executed: seq<Job<S, R>>)

  function NewDb<S, R>(init: S): Db<S, R>
  {
    Db([], false, Idle, init, [], [])
  }

  function SendTo<S, R>(b: Db<S, R>, j: Job<S, R>): Db<S, R>
  {
    b.(buf := b.buf + [j], accepted := b.accepted + [j])
  }

  function TakeFrom<S, R>(b: Db<S, R>): Db<S, R>
    requires b.buf != []
  {
    b.(buf := b.buf[1..], phase := Busy(b.buf[0]))
  }

  function FinishIn<S, R>(b: Db<S, R>): Db<S, R>
    requires b.phase.Busy?
  {
    var out := b.phase.job.fn(b.state);
    b.(phase := Replying(b.phase.job, out.1), state := out.0, executed := b.executed + [b.phase.job])
  }

  // ---- The sequential machine the queue is meant to be ----------------------------------

  /** The state after running jobs one after another. */
  function SeqState<S, R>(init: S, jobs: seq<Job<S, R>>): S
  {
    if jobs == [] then init
    else jobs[|jobs| - 1].fn(SeqState(init, jobs[..|jobs| - 1])).0
  }

  /** The error value the i-th job returns in that run. */
  function SeqResult<S, R>(init: S, jobs: seq<Job<S, R>>, i: nat): R
    requires i < |jobs|
  {
    jobs[i].fn(SeqState(init, jobs[..i])).1
  }

  // ---- The whole system -----------------------------------------------------------------

  datatype Outcome<R> = Reply(result: R) | EnqueueCancelled | WaitCancelled

  datatype CallState<R> = Sending | Waiting | Returned(outcome: Outcome<R>)

  /** One Enqueue call: its target, its job, whether its context is done, how far it got. */
  datatype Call<!S, !R> = Call(db: string, job: Job<S, R>, cancelled: bool, state: CallState<R>)

  datatype StopPhase = NotStopped | Closing | Draining | Stopped

  /** workers are the names still registered in the queue's map; dbs keeps every channel
      and goroutine ever created; slots are the one-element reply channels that hold a value. */
  datatype Sys<!S, !R> = Sys(
    maxDepth: nat, init: string -> S,
    workers: set<string>, dbs: map<string, Db<S, R>>,
    calls: map<nat, Call<S, R>>, slots: map<nat, R>, stop: StopPhase)

  function Start<S, R>(maxDepth: int, init: string -> S): Sys<S, R>
  {
    Sys(if maxDepth <= 0 then 256 else maxDepth, init, {}, map[], map[], map[], NotStopped)
  }

  datatype Step<!S, !R> =
    | Begin(call: nat, db: string, fn: S -> (S, R))   // Enqueue called; workerFor under the mutex
    | Cancel(call: nat)                               // the caller's context becomes done
    | Send(call: nat)                                 // first select takes the send case
    | GiveUpSend(call: nat)                           // first select takes the ctx.Done case
    | Take(db: string)                                // worker receives the next job
    | Finish(db: string)                              // the closure completes
    | Deliver(db: string)                             // worker sends on the reply channel
    | Receive(call: nat)                              // second select takes the reply case
    | GiveUpWait(call: nat)                           // second select takes the ctx.Done case
    | StopBegin
    | CloseOne(db: string)                            // one iteration of Stop's loop
    | CloseDone                                       // Stop unlocks and starts waiting
    | Exit(db: string)                                // worker leaves its range loop
    | StopReturn                                      // wg.Wait returns

  ghost predicate InState<S, R>(s: Sys<S, R>, c: nat, st: CallState<R>)
  {
    c in s.calls && s.calls[c].state == st
  }

  /** Which steps can happen. No Enqueue starts after Stop, nor is one still sending when Stop
      begins: the program gives no meaning to a send on a closed channel. */
  ghost predicate Enabled<S(!new), R(!new)>(s: Sys<S, R>, step: Step<S, R>)
  {
    match step
    case Begin(c, d, fn) => c !in s.calls && s.stop == NotStopped
    case Cancel(c) => c in s.calls
    case Send(c) =>
      InState(s, c, Sending) && s.calls[c].db in s.dbs
      && !s.dbs[s.calls[c].db].closed && |s.dbs[s.calls[c].db].buf| < s.maxDepth
    case GiveUpSend(c) => InState(s, c, Sending) && s.calls[c].cancelled
    case Take(d) => d in s.dbs && s.dbs[d].phase.Idle? && s.dbs[d].buf != []
    case Finish(d) => d in s.dbs && s.dbs[d].phase.Busy?
    case Deliver(d) => d in s.dbs && s.dbs[d].phase.Replying? && s.dbs[d].phase.job.call !in s.slots
    case Receive(c) => InState(s, c, Waiting) && c in s.slots
    case GiveUpWait(c) => InState(s, c, Waiting) && s.calls[c].cancelled
    case StopBegin => s.stop == NotStopped && forall c :: c in s.calls ==> s.calls[c].state != Sending
    case CloseOne(d) => s.stop == Closing && d in s.workers && d in s.dbs
    case CloseDone => s.stop == Closing && s.workers == {}
    case Exit(d) => d in s.dbs && s.dbs[d].phase.Idle? && s.dbs[d].buf == [] && s.dbs[d].closed
    case StopReturn => s.stop == Draining && forall d :: d in s.dbs ==> s.dbs[d].phase.Exited?
  }

  ghost function Apply<S(!new), R(!new)>(s: Sys<S, R>, step: Step<S, R>): Sys<S, R>
    requires Enabled(s, step)
  {
    match step
    case Begin(c, d, fn) =>
      s.(workers := s.workers + {d},
         dbs := if d in s.workers then s.dbs else s.dbs[d := NewDb(s.init(d))],
         calls := s.calls[c := Call(d, Job(c, fn), false, Sending)])
    case Cancel(c) => s.(calls := s.calls[c := s.calls[c].(cancelled := true)])
    case Send(c) =>
      var call := s.calls[c];
      s.(dbs := s.dbs[call.db := SendTo(s.dbs[call.db], call.job)],
         calls := s.calls[c := call.(state := Waiting)])
    case GiveUpSend(c) => s.(calls := s.calls[c := s.calls[c].(state := Returned(EnqueueCancelled))])
    case Take(d) => s.(dbs := s.dbs[d := TakeFrom(s.dbs[d])])
    case Finish(d) => s.(dbs := s.dbs[d := FinishIn(s.dbs[d])])
    case Deliver(d) =>
      var p := s.dbs[d].phase;
      s.(dbs := s.dbs[d := s.dbs[d].(phase := Idle)], slots := s.slots[p.job.call := p.result])
    case Receive(c) =>
      s.(calls := s.calls[c := s.calls[c].(state := Returned(Reply(s.slots[c])))], slots := s.slots - {c})
    case GiveUpWait(c) => s.(calls := s.calls[c := s.calls[c].(state := Returned(WaitCancelled))])
    case StopBegin => s.(stop := Closing)
    case CloseOne(d) => s.(workers := s.workers - {d}, dbs := s.dbs[d := s.dbs[d].(closed := true)])
    case CloseDone => s.(stop := Draining)
    case Exit(d) => s.(dbs := s.dbs[d := s.dbs[d].(phase := Exited)])
    case StopReturn => s.(stop := Stopped)
  }

  ghost predicate Legal<S(!new), R(!new)>(s: Sys<S, R>, steps: seq<Step<S, R>>)
    decreases |steps|
  {
    steps == [] || (Enabled(s, steps[0]) && Legal(Apply(s, steps[0]), steps[1..]))
  }

  ghost function Run<S(!new), R(!new)>(s: Sys<S, R>, steps: seq<Step<S, R>>): Sys<S, R>
    requires Legal(s, steps)
    decreases |steps|
  {
    if steps == [] then s else Run(Apply(s, steps[0]), steps[1..])
  }

  /** s is where some interleaving takes a freshly made queue. */
  ghost predicate Reachable<S(!new), R(!new)>(maxDepth: int, init: string -> S, s: Sys<S, R>)
  {
    exists steps :: Legal(Start(maxDepth, init), steps) && Run(Start(maxDepth, init), steps) == s
  }

  // ---- Invariant ------------------------------------------------------------------------

  ghost function InFlight<S, R>(b: Db<S, R>): seq<Job<S, R>>
  {
    if b.phase.Busy? then [b.phase.job] else []
  }

  /** How many jobs of b have had their reply put on the reply channel. */
  ghost function Delivered<S, R>(b: Db<S, R>): nat
  {
    if b.phase.Replying? && b.executed != [] then |b.executed| - 1 else |b.executed|
  }

  /** One database, on its own, is the sequential machine stopped somewhere in its input. */
  ghost predicate Serial<S(!new), R(!new)>(init: S, b: Db<S, R>)
  {
    && b.accepted == b.executed + InFlight(b) + b.buf
    && b.state == SeqState(init, b.executed)
    && (b.phase.Replying? ==>
          && b.executed != [] && b.executed[|b.executed| - 1] == b.phase.job
          && b.phase.result == SeqResult(init, b.executed, |b.executed| - 1))
    && (b.phase.Exited? ==> b.closed && b.buf == [])
  }

  /** The accepted jobs of d belong to distinct Enqueue calls that got past their send. */
  ghost predicate Owned<S(!new), R(!new)>(d: string, a: seq<Job<S, R>>, calls: map<nat, Call<S, R>>)
  {
    && (forall i :: 0 <= i < |a| ==>
          && a[i].call in calls && calls[a[i].call].db == d && calls[a[i].call].job == a[i]
          && PastSend(calls[a[i].call].state))
    && (forall i, k :: 0 <= i < k < |a| ==> a[i].call != a[k].call)
  }

  predicate PastSend<R>(st: CallState<R>)
  {
    !st.Sending? && !(st.Returned? && st.outcome.EnqueueCancelled?)
  }

  predicate Unanswered<R>(st: CallState<R>)
  {
    st.Waiting? || (st.Returned? && st.outcome.WaitCancelled?)
  }

  /** The i-th accepted job: its reply sits in its slot or was received once it is delivered,
      and is nowhere before that; the value is always the sequential one. */
  ghost predicate AnsweredAt<S(!new), R(!new)>(
    init: S, a: seq<Job<S, R>>, i: nat, delivered: nat, st: CallState<R>, slots: map<nat, R>)
    requires i < |a|
  {
    if i < delivered then
      if a[i].call in slots then slots[a[i].call] == SeqResult(init, a, i) && Unanswered(st)
      else st == Returned(Reply(SeqResult(init, a, i)))
    else
      a[i].call !in slots && Unanswered(st)
  }

  ghost predicate Answered<S(!new), R(!new)>(
    init: S, b: Db<S, R>, calls: map<nat, Call<S, R>>, slots: map<nat, R>)
  {
    forall i :: 0 <= i < |b.accepted| && b.accepted[i].call in calls ==>
      AnsweredAt(init, b.accepted, i, Delivered(b), calls[b.accepted[i].call].state, slots)
  }

  ghost predicate CallOk<S(!new), R(!new)>(s: Sys<S, R>, c: nat)
    requires c in s.calls
  {
    var call := s.calls[c];
    && call.db in s.dbs && call.job.call == c
    && (call.state.Sending? ==> !s.dbs[call.db].closed && s.stop == NotStopped)
    && (if PastSend(call.state) then call.job in s.dbs[call.db].accepted else c !in s.slots)
  }

  ghost predicate ChanOk<S(!new), R(!new)>(s: Sys<S, R>, d: string)
    requires d in s.dbs
  {
    && (s.dbs[d].closed <==> d !in s.workers)
    && |s.dbs[d].buf| <= s.maxDepth
    && (s.stop == Stopped ==> s.dbs[d].phase.Exited?)
  }

  ghost predicate Shape<S(!new), R(!new)>(s: Sys<S, R>)
  {
    && s.maxDepth > 0
    && s.workers <= s.dbs.Keys
    && (s.stop == NotStopped ==> s.workers == s.dbs.Keys)
    && (s.stop == Draining || s.stop == Stopped ==> s.workers == {})
    && s.slots.Keys <= s.calls.Keys
  }

  ghost predicate DbOk<S(!new), R(!new)>(s: Sys<S, R>, d: string)
    requires d in s.dbs
  {
    && ChanOk(s, d)
    && Serial(s.init(d), s.dbs[d])
    && Owned(d, s.dbs[d].accepted, s.calls)
    && Answered(s.init(d), s.dbs[d], s.calls, s.slots)
  }

  ghost predicate Inv<S(!new), R(!new)>(s: Sys<S, R>)
  {
    && Shape(s)
    && (forall d {:trigger DbOk(s, d)} :: d in s.dbs ==> DbOk(s, d))
    && (forall c {:trigger CallOk(s, c)} :: c in s.calls ==> CallOk(s, c))
  }

  lemma {:induction false} SeqStateExtend<S, R>(init: S, jobs: seq<Job<S, R>>, j: Job<S, R>)
    ensures SeqState(init, jobs + [j]) == j.fn(SeqState(init, jobs)).0
  {
    assert (jobs + [j])[..|jobs|] == jobs;
  }

  /** Running the n-th job after the ones before it. */
  lemma NextJob<S, R>(init: S, jobs: seq<Job<S, R>>, n: nat)
    requires n < |jobs|
    ensures jobs[..n + 1] == jobs[..n] + [jobs[n]] && jobs[n..][1..] == jobs[n + 1..]
    ensures SeqState(init, jobs[..n + 1]) == jobs[n].fn(SeqState(init, jobs[..n])).0
    ensures SeqResult(SeqState(init, jobs[..n]), jobs[n..], 0) == SeqResult(init, jobs, n)
  {
    assert jobs[..n + 1] == jobs[..n] + [jobs[n]];
    SeqStateExtend(init, jobs[..n], jobs[n]);
    assert jobs[n..][..0] == [];
  }

  /** A result depends only on the jobs up to its own position. */
  lemma SeqResultPrefix<S, R>(init: S, jobs: seq<Job<S, R>>, more: seq<Job<S, R>>, i: nat)
    requires i < |jobs|
    ensures SeqResult(init, jobs + more, i) == SeqResult(init, jobs, i)
  {
    assert (jobs + more)[..i] == jobs[..i];
  }

  // ---- Every step keeps the invariant ---------------------------------------------------

  /** t agrees with s on everything the accepted jobs of d can see. */
  ghost predicate Agree<S(!new), R(!new)>(s: Sys<S, R>, t: Sys<S, R>, d: string)
  {
    && d in s.dbs && d in t.dbs && t.dbs[d].accepted == s.dbs[d].accepted
    && Delivered(t.dbs[d]) == Delivered(s.dbs[d]) && t.init == s.init
    && (forall i :: 0 <= i < |s.dbs[d].accepted| ==>
          var c := s.dbs[d].accepted[i].call;
          && c in s.calls && c in t.calls && t.calls[c].(cancelled := false) == s.calls[c].(cancelled := false)
          && (c in t.slots <==> c in s.slots) && (c in s.slots ==> t.slots[c] == s.slots[c]))
  }

  lemma FrameDb<S(!new), R(!new)>(s: Sys<S, R>, t: Sys<S, R>, d: string)
    requires Agree(s, t, d) && DbOk(s, d) && ChanOk(t, d) && Serial(t.init(d), t.dbs[d])
    ensures DbOk(t, d)
  {
    var a := s.dbs[d].accepted;
    forall i | 0 <= i < |a|
      ensures AnsweredAt(t.init(d), a, i, Delivered(t.dbs[d]), t.calls[a[i].call].state, t.slots)
    {
      assert AnsweredAt(s.init(d), a, i, Delivered(s.dbs[d]), s.calls[a[i].call].state, s.slots);
    }
  }

  /** A call whose own record and slot are untouched stays consistent while its channel only
      gains accepted jobs. */
  lemma FrameCall<S(!new), R(!new)>(s: Sys<S, R>, t: Sys<S, R>, c: nat)
    requires c in s.calls && c in t.calls && CallOk(s, c)
    requires t.calls[c].(cancelled := false) == s.calls[c].(cancelled := false)
    requires c in t.slots <==> c in s.slots
    requires s.calls[c].db in t.dbs && s.dbs[s.calls[c].db].accepted <= t.dbs[s.calls[c].db].accepted
    requires s.calls[c].state.Sending? ==> !t.dbs[s.calls[c].db].closed && t.stop == NotStopped
    ensures CallOk(t, c)
  {
  }

  lemma InvCancel<S(!new), R(!new)>(s: Sys<S, R>, c: nat)
    requires Inv(s) && Enabled(s, Cancel(c))
    ensures Inv(Apply(s, Cancel(c)))
  {
    var t := Apply(s, Cancel(c));
    forall d | d in t.dbs ensures DbOk(t, d) {
      assert DbOk(s, d);
      FrameDb(s, t, d);
    }
    forall k | k in t.calls ensures CallOk(t, k) {
      FrameCall(s, t, k);
    }
  }

  lemma InvGiveUpSend<S(!new), R(!new)>(s: Sys<S, R>, c: nat)
    requires Inv(s) && Enabled(s, GiveUpSend(c))
    ensures Inv(Apply(s, GiveUpSend(c)))
  {
    var t := Apply(s, GiveUpSend(c));
    forall d | d in t.dbs ensures DbOk(t, d) {
      assert DbOk(s, d);
      FrameDb(s, t, d);
    }
    forall k | k in t.calls ensures CallOk(t, k) {
      assert CallOk(s, k);
    }
  }

  lemma InvGiveUpWait<S(!new), R(!new)>(s: Sys<S, R>, c: nat)
    requires Inv(s) && Enabled(s, GiveUpWait(c))
    ensures Inv(Apply(s, GiveUpWait(c)))
  {
    var t := Apply(s, GiveUpWait(c));
    forall d | d in t.dbs ensures DbOk(t, d) {
      assert DbOk(s, d);
      var a := s.dbs[d].accepted;
      forall i | 0 <= i < |a|
        ensures AnsweredAt(t.init(d), a, i, Delivered(t.dbs[d]), t.calls[a[i].call].state, t.slots)
      {
        assert AnsweredAt(s.init(d), a, i, Delivered(s.dbs[d]), s.calls[a[i].call].state, s.slots);
      }
    }
    forall k | k in t.calls ensures CallOk(t, k) {
      assert CallOk(s, k);
    }
  }

  lemma InvReceive<S(!new), R(!new)>(s: Sys<S, R>, c: nat)
    requires Inv(s) && Enabled(s, Receive(c))
    ensures Inv(Apply(s, Receive(c)))
  {
    var t := Apply(s, Receive(c));
    forall d | d in t.dbs ensures DbOk(t, d) {
      assert DbOk(s, d);
      var a := s.dbs[d].accepted;
      forall i | 0 <= i < |a|
        ensures AnsweredAt(t.init(d), a, i, Delivered(t.dbs[d]), t.calls[a[i].call].state, t.slots)
      {
        assert AnsweredAt(s.init(d), a, i, Delivered(s.dbs[d]), s.calls[a[i].call].state, s.slots);
      }
    }
    forall k | k in t.calls ensures CallOk(t, k) {
      assert CallOk(s, k);
    }
  }

  lemma BeginKeepsDb<S(!new), R(!new)>(s: Sys<S, R>, c: nat, d: string, fn: S -> (S, R), e: string)
    requires Inv(s) && Enabled(s, Begin(c, d, fn)) && e in Apply(s, Begin(c, d, fn)).dbs
    ensures DbOk(Apply(s, Begin(c, d, fn)), e)
  {
    if e in s.dbs {
      assert DbOk(s, e);
      FrameDb(s, Apply(s, Begin(c, d, fn)), e);
    }
  }

  lemma BeginKeepsCall<S(!new), R(!new)>(s: Sys<S, R>, c: nat, d: string, fn: S -> (S, R), k: nat)
    requires Inv(s) && Enabled(s, Begin(c, d, fn)) && k in Apply(s, Begin(c, d, fn)).calls
    ensures CallOk(Apply(s, Begin(c, d, fn)), k)
  {
    if k != c {
      assert CallOk(s, k);
      FrameCall(s, Apply(s, Begin(c, d, fn)), k);
    } else if d in s.dbs {
      assert DbOk(s, d);
    }
  }

  lemma InvBegin<S(!new), R(!new)>(s: Sys<S, R>, c: nat, d: string, fn: S -> (S, R))
    requires Inv(s) && Enabled(s, Begin(c, d, fn))
    ensures Inv(Apply(s, Begin(c, d, fn)))
  {
    var t := Apply(s, Begin(c, d, fn));
    forall e | e in t.dbs ensures DbOk(t, e) {
      BeginKeepsDb(s, c, d, fn, e);
    }
    forall k | k in t.calls ensures CallOk(t, k) {
      BeginKeepsCall(s, c, d, fn, k);
    }
  }

  lemma SendKeepsOthers<S(!new), R(!new)>(s: Sys<S, R>, c: nat, d: string)
    requires Enabled(s, Send(c)) && d in s.dbs && d != s.calls[c].db && DbOk(s, d)
    ensures DbOk(Apply(s, Send(c)), d)
  {
    FrameDb(s, Apply(s, Send(c)), d);
  }

  lemma SendKeepsCall<S(!new), R(!new)>(s: Sys<S, R>, c: nat, k: nat)
    requires Enabled(s, Send(c)) && k in s.calls && CallOk(s, k) && CallOk(s, c)
    ensures CallOk(Apply(s, Send(c)), k)
  {
    if k != c {
      FrameCall(s, Apply(s, Send(c)), k);
    }
  }

  lemma InvSend<S(!new), R(!new)>(s: Sys<S, R>, c: nat)
    requires Inv(s) && Enabled(s, Send(c))
    ensures Inv(Apply(s, Send(c)))
  {
    var t := Apply(s, Send(c));
    assert CallOk(s, c);
    forall d | d in t.dbs ensures DbOk(t, d) {
      assert DbOk(s, d);
      if d == s.calls[c].db {
        SendKeepsDb(s, c);
      } else {
        SendKeepsOthers(s, c, d);
      }
    }
    forall k | k in t.calls ensures CallOk(t, k) {
      SendKeepsCall(s, c, k);
    }
  }

  lemma SendKeepsDb<S(!new), R(!new)>(s: Sys<S, R>, c: nat)
    requires Enabled(s, Send(c)) && DbOk(s, s.calls[c].db) && CallOk(s, c)
    ensures DbOk(Apply(s, Send(c)), s.calls[c].db)
  {
    var t := Apply(s, Send(c));
    var d := s.calls[c].db;
    var a, b := s.dbs[d].accepted, t.dbs[d].accepted;
    forall i | 0 <= i < |b|
      ensures AnsweredAt(t.init(d), b, i, Delivered(t.dbs[d]), t.calls[b[i].call].state, t.slots)
    {
      if i < |a| {
        assert AnsweredAt(s.init(d), a, i, Delivered(s.dbs[d]), s.calls[a[i].call].state, s.slots);
        SeqResultPrefix(s.init(d), a, [s.calls[c].job], i);
      }
    }
  }

  /** Steps that leave calls, slots and accepted histories alone only have to keep each
      database serial. */
  lemma FrameAll<S(!new), R(!new)>(s: Sys<S, R>, t: Sys<S, R>)
    requires Inv(s) && Shape(t) && t.calls == s.calls && t.slots == s.slots && t.init == s.init
    requires t.dbs.Keys == s.dbs.Keys
    requires forall d :: d in s.dbs ==>
      && t.dbs[d].accepted == s.dbs[d].accepted && Delivered(t.dbs[d]) == Delivered(s.dbs[d])
      && ChanOk(t, d) && Serial(t.init(d), t.dbs[d])
    requires forall c :: c in s.calls && s.calls[c].state.Sending? && s.calls[c].db in t.dbs ==>
      !t.dbs[s.calls[c].db].closed && t.stop == NotStopped
    ensures Inv(t)
  {
    forall d | d in t.dbs ensures DbOk(t, d) {
      assert DbOk(s, d);
      FrameDb(s, t, d);
    }
    forall k | k in t.calls ensures CallOk(t, k) {
      assert CallOk(s, k);
      FrameCall(s, t, k);
    }
  }

  lemma FinishKeepsSerial<S(!new), R(!new)>(init: S, b: Db<S, R>)
    requires Serial(init, b) && b.phase.Busy?
    ensures Serial(init, FinishIn(b))
  {
    var j := b.phase.job;
    SeqStateExtend(init, b.executed, j);
    assert (b.executed + [j])[..|b.executed|] == b.executed;
  }

  /** Replacing one database's record by one with the same accepted history. */
  lemma ReplaceDb<S(!new), R(!new)>(s: Sys<S, R>, t: Sys<S, R>, d: string, b: Db<S, R>, workers: set<string>)
    requires Inv(s) && d in s.dbs && t == s.(dbs := s.dbs[d := b], workers := workers) && Shape(t)
    requires b.accepted == s.dbs[d].accepted && Delivered(b) == Delivered(s.dbs[d])
    requires Serial(s.init(d), b) && ChanOk(t, d)
    requires workers == s.workers || workers == s.workers - {d}
    requires b.closed ==> s.dbs[d].closed || s.stop != NotStopped
    ensures Inv(t)
  {
    forall e | e in s.dbs
      ensures t.dbs[e].accepted == s.dbs[e].accepted && Delivered(t.dbs[e]) == Delivered(s.dbs[e])
      ensures ChanOk(t, e) && Serial(t.init(e), t.dbs[e])
    {
      assert DbOk(s, e);
    }
    forall c | c in s.calls && s.calls[c].state.Sending? && s.calls[c].db in t.dbs
      ensures !t.dbs[s.calls[c].db].closed && t.stop == NotStopped
    {
      assert CallOk(s, c);
    }
    FrameAll(s, t);
  }

  /** Take, Finish, CloseOne and Exit change one database only. */
  lemma ServeStep<S(!new), R(!new)>(s: Sys<S, R>, step: Step<S, R>, d: string)
    requires Inv(s) && Enabled(s, step)
    requires step == Take(d) || step == Finish(d) || step == CloseOne(d) || step == Exit(d)
    ensures Inv(Apply(s, step))
  {
    var t := Apply(s, step);
    assert DbOk(s, d);
    if step.Finish? {
      FinishKeepsSerial(s.init(d), s.dbs[d]);
    }
    ReplaceDb(s, t, d, t.dbs[d], t.workers);
  }

  lemma DeliverKeepsDb<S(!new), R(!new)>(s: Sys<S, R>, d: string)
    requires Enabled(s, Deliver(d)) && DbOk(s, d)
    ensures DbOk(Apply(s, Deliver(d)), d)
  {
    var t := Apply(s, Deliver(d));
    var b := s.dbs[d];
    var n := |b.executed| - 1;
    assert b.accepted[n] == b.phase.job;
    SeqResultPrefix(s.init(d), b.executed, InFlight(b) + b.buf, n);
    assert b.accepted == b.executed + (InFlight(b) + b.buf);
    forall i | 0 <= i < |b.accepted|
      ensures AnsweredAt(t.init(d), b.accepted, i, Delivered(t.dbs[d]), t.calls[b.accepted[i].call].state, t.slots)
    {
      assert AnsweredAt(s.init(d), b.accepted, i, Delivered(b), s.calls[b.accepted[i].call].state, s.slots);
    }
  }

  /** The delivered job belongs to d, so no job of another database has that reply channel. */
  lemma DeliverKeepsOther<S(!new), R(!new)>(s: Sys<S, R>, d: string, e: string)
    requires Inv(s) && Enabled(s, Deliver(d)) && e in s.dbs && e != d
    ensures DbOk(Apply(s, Deliver(d)), e)
  {
    var b := s.dbs[d];
    assert DbOk(s, d) && DbOk(s, e);
    assert b.accepted[|b.executed| - 1] == b.phase.job;
    FrameDb(s, Apply(s, Deliver(d)), e);
  }

  /** The call that is answered is past its send. */
  lemma DeliverKeepsCall<S(!new), R(!new)>(s: Sys<S, R>, d: string, k: nat)
    requires Inv(s) && Enabled(s, Deliver(d)) && k in s.calls
    ensures CallOk(Apply(s, Deliver(d)), k)
  {
    var b := s.dbs[d];
    assert DbOk(s, d) && CallOk(s, k);
    assert b.accepted[|b.executed| - 1] == b.phase.job;
  }

  lemma DeliverKeepsShape<S(!new), R(!new)>(s: Sys<S, R>, d: string)
    requires Inv(s) && Enabled(s, Deliver(d))
    ensures Shape(Apply(s, Deliver(d)))
  {
    var b := s.dbs[d];
    assert DbOk(s, d);
    assert b.accepted[|b.executed| - 1] == b.phase.job;
  }

  lemma InvDeliver<S(!new), R(!new)>(s: Sys<S, R>, d: string)
    requires Inv(s) && Enabled(s, Deliver(d))
    ensures Inv(Apply(s, Deliver(d)))
  {
    var t := Apply(s, Deliver(d));
    assert DbOk(s, d);
    DeliverKeepsShape(s, d);
    forall e | e in t.dbs ensures DbOk(t, e) {
      if e == d {
        DeliverKeepsDb(s, d);
      } else {
        DeliverKeepsOther(s, d, e);
      }
    }
    forall k | k in t.calls ensures CallOk(t, k) {
      DeliverKeepsCall(s, d, k);
    }
  }

  lemma InvStopStep<S(!new), R(!new)>(s: Sys<S, R>, step: Step<S, R>)
    requires Inv(s) && Enabled(s, step)
    requires step.StopBegin? || step.CloseDone? || step.StopReturn?
    ensures Inv(Apply(s, step))
  {
    var t := Apply(s, step);
    forall d | d in s.dbs ensures Serial(t.init(d), t.dbs[d]) && ChanOk(t, d) {
      assert DbOk(s, d);
    }
    forall c | c in s.calls ensures !s.calls[c].state.Sending? {
      assert CallOk(s, c);
    }
    FrameAll(s, t);
  }

  lemma InvStep<S(!new), R(!new)>(s: Sys<S, R>, step: Step<S, R>)
    requires Inv(s) && Enabled(s, step)
    ensures Inv(Apply(s, step))
  {
    match step
    case Begin(c, d, fn) => InvBegin(s, c, d, fn);
    case Cancel(c) => InvCancel(s, c);
    case Send(c) => InvSend(s, c);
    case GiveUpSend(c) => InvGiveUpSend(s, c);
    case Take(d) => ServeStep(s, step, d);
    case Finish(d) => ServeStep(s, step, d);
    case CloseOne(d) => ServeStep(s, step, d);
    case Exit(d) => ServeStep(s, step, d);
    case Deliver(d) => InvDeliver(s, d);
    case Receive(c) => InvReceive(s, c);
    case GiveUpWait(c) => InvGiveUpWait(s, c);
    case _ => InvStopStep(s, step);
  }

  lemma {:induction false} InvRun<S(!new), R(!new)>(s: Sys<S, R>, steps: seq<Step<S, R>>)
    requires Inv(s) && Legal(s, steps)
    ensures Inv(Run(s, steps))
    decreases |steps|
  {
    if steps != [] {
      InvStep(s, steps[0]);
      InvRun(Apply(s, steps[0]), steps[1..]);
    }
  }

  lemma StartInv<S(!new), R(!new)>(maxDepth: int, init: string -> S)
    ensures Inv(Start<S, R>(maxDepth, init))
  {
  }
}
