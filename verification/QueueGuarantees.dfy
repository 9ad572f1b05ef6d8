/** What every run of the write queue guarantees: refinement of the sequential machine, replies,
    cancellation, and a shutdown that drains. */
module QueueGuarantees {
  import opened Prelude
  import opened MapSums
  import opened DbQueue

  // ---- Refinement of the sequential machine ---------------------------------------------

  /** Jobs accepted and not yet completed, oldest first. */
  ghost function Pending<S, R>(b: Db<S, R>): seq<Job<S, R>>
  {
    InFlight(b) + b.buf
  }

  /** The only two moves of the sequential machine: take a job in at the back, or run the
      job at the front against the current state. */
  ghost predicate SequentialMove<S(!new), R(!new)>(b: Db<S, R>, b': Db<S, R>)
  {
    || (b'.accepted == b.accepted && b'.executed == b.executed && b'.state == b.state && Pending(b') == Pending(b))
    || (exists j :: b' == SendTo(b, j) && Pending(b') == Pending(b) + [j])
    || (&& Pending(b) != [] && Pending(b') == Pending(b)[1..]
        && b'.accepted == b.accepted && b'.executed == b.executed + [Pending(b)[0]]
        && b'.state == Pending(b)[0].fn(b.state).0)
  }

  /** The database a step works on, if any. */
  ghost function Target<S(!new), R(!new)>(s: Sys<S, R>, step: Step<S, R>): Option<string>
    requires Enabled(s, step)
  {
    match step
    case Send(c) => Some(s.calls[c].db)
    case Take(d) => Some(d)
    case Finish(d) => Some(d)
    case Deliver(d) => Some(d)
    case CloseOne(d) => Some(d)
    case Exit(d) => Some(d)
    case _ => None
  }

  /** Every step of every interleaving is a move of the sequential machine of the database it
      works on, and no move at all for every other database. */
  lemma StepRefines<S(!new), R(!new)>(s: Sys<S, R>, step: Step<S, R>, d: string)
    requires Inv(s) && Enabled(s, step) && d in s.dbs
    ensures d in Apply(s, step).dbs
    ensures SequentialMove(s.dbs[d], Apply(s, step).dbs[d])
    ensures Target(s, step) != Some(d) ==> Apply(s, step).dbs[d] == s.dbs[d]
  {
    var b, b' := s.dbs[d], Apply(s, step).dbs[d];
    assert DbOk(s, d);
    if step.Send? && s.calls[step.call].db == d {
      assert b' == SendTo(b, s.calls[step.call].job);
      assert Pending(b') == Pending(b) + [s.calls[step.call].job];
    } else if step == Take(d) {
      assert Pending(b') == Pending(b);
    }
  }

  lemma {:induction false} RunKeepsInit<S(!new), R(!new)>(s: Sys<S, R>, steps: seq<Step<S, R>>)
    requires Legal(s, steps)
    ensures Run(s, steps).init == s.init
    decreases |steps|
  {
    if steps != [] {
      RunKeepsInit(Apply(s, steps[0]), steps[1..]);
    }
  }

  lemma ReachableInv<S(!new), R(!new)>(maxDepth: int, init: string -> S, s: Sys<S, R>)
    requires Reachable(maxDepth, init, s)
    ensures Inv(s) && s.init == init
  {
    var steps :| Legal(Start(maxDepth, init), steps) && Run(Start(maxDepth, init), steps) == s;
    StartInv<S, R>(maxDepth, init);
    InvRun(Start(maxDepth, init), steps);
    RunKeepsInit(Start(maxDepth, init), steps);
  }

  /** In every reachable state each database has run a prefix of its accepted jobs, each of them
      once, in acceptance order, and its contents are those of the sequential run. */
  lemma SerialExecution<S(!new), R(!new)>(maxDepth: int, init: string -> S, s: Sys<S, R>, d: string)
    requires Reachable(maxDepth, init, s) && d in s.dbs
    ensures s.dbs[d].executed <= s.dbs[d].accepted
    ensures s.dbs[d].accepted == s.dbs[d].executed + Pending(s.dbs[d])
    ensures s.dbs[d].state == SeqState(init(d), s.dbs[d].executed)
    ensures forall i, k :: 0 <= i < k < |s.dbs[d].accepted| ==>
      s.dbs[d].accepted[i].call != s.dbs[d].accepted[k].call
  {
    ReachableInv(maxDepth, init, s);
    assert DbOk(s, d);
    SerialDb(init(d), d, s.dbs[d], s.calls);
  }

  lemma SerialDb<S(!new), R(!new)>(init: S, d: string, b: Db<S, R>, calls: map<nat, Call<S, R>>)
    requires Serial(init, b) && Owned(d, b.accepted, calls)
    ensures b.accepted == b.executed + Pending(b) && b.executed <= b.accepted
    ensures b.state == SeqState(init, b.executed)
    ensures forall i, k :: 0 <= i < k < |b.accepted| ==> b.accepted[i].call != b.accepted[k].call
  {
    assert b.executed + InFlight(b) + b.buf == b.executed + Pending(b);
  }

  /** Two runs of the server, with any interleavings, channel sizes and traffic on other
      databases, have d in the same state whenever they have run the same closures of d, whichever
      calls handed them in and whatever else is still waiting. */
  lemma InterleavingIrrelevant<S(!new), R(!new)>(
    n: int, m: int, init: string -> S, init': string -> S, s: Sys<S, R>, t: Sys<S, R>, d: string)
    requires Reachable(n, init, s) && Reachable(m, init', t)
    requires d in s.dbs && d in t.dbs && init(d) == init'(d)
    requires Closures(s.dbs[d].executed) == Closures(t.dbs[d].executed)
    ensures s.dbs[d].state == t.dbs[d].state
  {
    SerialExecution(n, init, s, d);
    SerialExecution(m, init', t, d);
    ClosuresDecide(init(d), s.dbs[d].executed, t.dbs[d].executed);
  }

  ghost function Closures<S, R>(jobs: seq<Job<S, R>>): (r: seq<S -> (S, R)>)
    ensures |r| == |jobs| && forall i :: 0 <= i < |jobs| ==> r[i] == jobs[i].fn
  {
    if jobs == [] then [] else Closures(jobs[..|jobs| - 1]) + [jobs[|jobs| - 1].fn]
  }

  lemma {:induction false} ClosuresDecide<S, R>(init: S, a: seq<Job<S, R>>, b: seq<Job<S, R>>)
    requires Closures(a) == Closures(b)
    ensures SeqState(init, a) == SeqState(init, b)
  {
    if a != [] {
      var n := |a| - 1;
      assert Closures(a)[n] == Closures(b)[n];
      assert Closures(a)[..n] == Closures(a[..n]) && Closures(b)[..n] == Closures(b[..n]);
      ClosuresDecide(init, a[..n], b[..n]);
    }
  }

  /** An Enqueue that returns the closure's error returns the one the sequential run gives at
      the job's own position in the acceptance order. */
  lemma RepliesAreSequential<S(!new), R(!new)>(maxDepth: int, init: string -> S, s: Sys<S, R>, c: nat, r: R)
    returns (i: nat)
    requires Reachable(maxDepth, init, s)
    requires InState(s, c, Returned(Reply(r)))
    ensures s.calls[c].db in s.dbs && i < |s.dbs[s.calls[c].db].executed|
    ensures s.dbs[s.calls[c].db].executed[i] == s.calls[c].job
    ensures r == SeqResult(init(s.calls[c].db), s.dbs[s.calls[c].db].executed, i)
  {
    ReachableInv(maxDepth, init, s);
    i := ReplyPosition(s, c, r);
  }

  lemma ReplyPosition<S(!new), R(!new)>(s: Sys<S, R>, c: nat, r: R) returns (i: nat)
    requires Inv(s) && InState(s, c, Returned(Reply(r)))
    ensures s.calls[c].db in s.dbs && i < |s.dbs[s.calls[c].db].executed|
    ensures s.dbs[s.calls[c].db].executed[i] == s.calls[c].job
    ensures r == SeqResult(s.init(s.calls[c].db), s.dbs[s.calls[c].db].executed, i)
  {
    assert CallOk(s, c);
    var d := s.calls[c].db;
    var b := s.dbs[d];
    assert DbOk(s, d);
    i :| 0 <= i < |b.accepted| && b.accepted[i] == s.calls[c].job;
    assert AnsweredAt(s.init(d), b.accepted, i, Delivered(b), s.calls[c].state, s.slots);
    RepliedInOrder(s.init(d), b, i, s.slots, r);
  }

  /** A received reply is that of a job already run, at the same place. */
  lemma RepliedInOrder<S(!new), R(!new)>(init: S, b: Db<S, R>, i: nat, slots: map<nat, R>, r: R)
    requires Serial(init, b) && i < |b.accepted|
    requires AnsweredAt(init, b.accepted, i, Delivered(b), Returned(Reply(r)), slots)
    ensures i < |b.executed| && b.executed[i] == b.accepted[i] && r == SeqResult(init, b.executed, i)
  {
    assert b.accepted == b.executed + Pending(b);
    SeqResultPrefix(init, b.executed, Pending(b), i);
  }

  // ---- What the callers handed in -------------------------------------------------------

  lemma CallStays<S(!new), R(!new)>(s: Sys<S, R>, step: Step<S, R>, c: nat)
    requires Enabled(s, step) && c in s.calls
    ensures c in Apply(s, step).calls
    ensures Apply(s, step).calls[c].db == s.calls[c].db && Apply(s, step).calls[c].job == s.calls[c].job
    ensures Apply(s, step).calls[c].cancelled <==> s.calls[c].cancelled || step == Cancel(c)
  {
  }

  /** A call keeps its target and its closure, and its context is done exactly when it was
      cancelled. */
  lemma {:induction false} CallKept<S(!new), R(!new)>(s: Sys<S, R>, steps: seq<Step<S, R>>, c: nat)
    requires Legal(s, steps) && c in s.calls
    ensures var t := Run(s, steps);
      && c in t.calls && t.calls[c].db == s.calls[c].db && t.calls[c].job == s.calls[c].job
      && (t.calls[c].cancelled <==> s.calls[c].cancelled || Cancel(c) in steps)
    decreases |steps|
  {
    if steps != [] {
      CallStays(s, steps[0], c);
      CallKept(Apply(s, steps[0]), steps[1..], c);
      assert steps == [steps[0]] + steps[1..];
    }
  }

  lemma {:induction false} Handed<S(!new), R(!new)>(
    s: Sys<S, R>, steps: seq<Step<S, R>>, i: nat, c: nat, d: string, fn: S -> (S, R))
    requires Legal(s, steps) && i < |steps| && steps[i] == Begin(c, d, fn)
    ensures c !in s.calls && c in Run(s, steps).calls
    ensures Run(s, steps).calls[c].db == d && Run(s, steps).calls[c].job == Job(c, fn)
    decreases |steps|
  {
    var t := Apply(s, steps[0]);
    if i == 0 {
      CallKept(t, steps[1..], c);
    } else {
      Handed(t, steps[1..], i - 1, c, d, fn);
      if c in s.calls {
        CallStays(s, steps[0], c);
      }
    }
  }

  /** Whatever else happens in the run, an Enqueue's call stands for the very closure it was handed,
      on the very database it named. */
  lemma {:induction false} CallsAsHandedIn<S(!new), R(!new)>(
    maxDepth: int, init: string -> S, steps: seq<Step<S, R>>, i: nat, c: nat, d: string, fn: S -> (S, R))
    requires Legal(Start(maxDepth, init), steps) && i < |steps| && steps[i] == Begin(c, d, fn)
    ensures var t := Run(Start(maxDepth, init), steps);
      c in t.calls && t.calls[c].db == d && t.calls[c].job == Job(c, fn)
  {
    Handed(Start(maxDepth, init), steps, i, c, d, fn);
  }

  /** And every call was begun by some Enqueue. */
  lemma {:induction false} BegunAt<S(!new), R(!new)>(s: Sys<S, R>, steps: seq<Step<S, R>>, c: nat) returns (i: nat)
    requires Legal(s, steps) && c in Run(s, steps).calls && c !in s.calls
    ensures var t := Run(s, steps);
      i < |steps| && steps[i] == Begin(c, t.calls[c].db, t.calls[c].job.fn) && t.calls[c].job.call == c
    decreases |steps|
  {
    var t := Apply(s, steps[0]);
    if c in t.calls {
      i := 0;
      CallKept(t, steps[1..], c);
    } else {
      var k := BegunAt(t, steps[1..], c);
      i := k + 1;
    }
  }

  /** No two Enqueues of a run are the same call. */
  lemma {:induction false} BegunOnce<S(!new), R(!new)>(s: Sys<S, R>, steps: seq<Step<S, R>>, i: nat, j: nat)
    requires Legal(s, steps) && i < j < |steps| && steps[i].Begin? && steps[j].Begin?
    ensures steps[i].call != steps[j].call
    decreases |steps|
  {
    var t := Apply(s, steps[0]);
    if i == 0 {
      Handed(t, steps[1..], j - 1, steps[j].call, steps[j].db, steps[j].fn);
    } else {
      BegunOnce(t, steps[1..], i - 1, j - 1);
    }
  }

  /** What a database has run, in order, are closures that Enqueues of the run handed in for that
      database, no Enqueue's more than once. */
  lemma {:induction false} ExecutedWereHandedIn<S(!new), R(!new)>(
    maxDepth: int, init: string -> S, steps: seq<Step<S, R>>, d: string) returns (from: seq<nat>)
    requires Legal(Start(maxDepth, init), steps) && d in Run(Start(maxDepth, init), steps).dbs
    ensures var done := Run(Start(maxDepth, init), steps).dbs[d].executed;
      && |from| == |done|
      && (forall k :: 0 <= k < |done| ==>
            from[k] < |steps| && steps[from[k]] == Begin(done[k].call, d, done[k].fn))
      && (forall j, k :: 0 <= j < k < |done| ==> from[j] != from[k])
  {
    var t := Run(Start(maxDepth, init), steps);
    ReachableInv(maxDepth, init, t);
    SerialExecution(maxDepth, init, t, d);
    assert DbOk(t, d);
    from := HandedInUpTo(maxDepth, init, steps, d, |t.dbs[d].executed|);
  }

  lemma {:induction false} HandedInUpTo<S(!new), R(!new)>(
    maxDepth: int, init: string -> S, steps: seq<Step<S, R>>, d: string, n: nat) returns (from: seq<nat>)
    requires Legal(Start(maxDepth, init), steps) && d in Run(Start(maxDepth, init), steps).dbs
    requires n <= |Run(Start(maxDepth, init), steps).dbs[d].accepted|
    requires Owned(d, Run(Start(maxDepth, init), steps).dbs[d].accepted, Run(Start(maxDepth, init), steps).calls)
    ensures var all := Run(Start(maxDepth, init), steps).dbs[d].accepted;
      && |from| == n
      && (forall k :: 0 <= k < n ==> from[k] < |steps| && steps[from[k]] == Begin(all[k].call, d, all[k].fn))
      && (forall j, k :: 0 <= j < k < n ==> from[j] != from[k])
  {
    if n == 0 {
      from := [];
    } else {
      var all := Run(Start(maxDepth, init), steps).dbs[d].accepted;
      var rest := HandedInUpTo(maxDepth, init, steps, d, n - 1);
      var i := BegunAt(Start(maxDepth, init), steps, all[n - 1].call);
      from := rest + [i];
    }
  }

  /** The error an Enqueue returns is that of its own closure, run on the state its predecessors in
      the acceptance order leave. */
  lemma {:induction false} ReplyIsOwnClosures<S(!new), R(!new)>(
    maxDepth: int, init: string -> S, steps: seq<Step<S, R>>, b: nat, c: nat, d: string, fn: S -> (S, R), r: R)
    returns (i: nat)
    requires Legal(Start(maxDepth, init), steps) && b < |steps| && steps[b] == Begin(c, d, fn)
    requires InState(Run(Start(maxDepth, init), steps), c, Returned(Reply(r)))
    ensures var t := Run(Start(maxDepth, init), steps);
      && d in t.dbs && i < |t.dbs[d].executed| && t.dbs[d].executed[i] == Job(c, fn)
      && r == fn(SeqState(init(d), t.dbs[d].executed[..i])).1
  {
    var t := Run(Start(maxDepth, init), steps);
    Handed(Start(maxDepth, init), steps, b, c, d, fn);
    i := RepliesAreSequential(maxDepth, init, t, c, r);
  }

  // ---- Cancellation ---------------------------------------------------------------------

  /** A call's job is in the acceptance order exactly when the call got past its send; so a
      call that gave up its send never runs, and one that gave up waiting still has its job in
      the order of its own database, and of no other. */
  lemma AcceptedIffSent<S(!new), R(!new)>(maxDepth: int, init: string -> S, s: Sys<S, R>, c: nat)
    requires Reachable(maxDepth, init, s) && c in s.calls
    ensures s.calls[c].db in s.dbs
    ensures PastSend(s.calls[c].state) <==> s.calls[c].job in s.dbs[s.calls[c].db].accepted
    ensures forall d, i :: d in s.dbs && 0 <= i < |s.dbs[d].accepted| && s.dbs[d].accepted[i].call == c ==>
      d == s.calls[c].db && s.dbs[d].accepted[i] == s.calls[c].job && PastSend(s.calls[c].state)
  {
    ReachableInv(maxDepth, init, s);
    assert CallOk(s, c);
    forall d, i | d in s.dbs && 0 <= i < |s.dbs[d].accepted| && s.dbs[d].accepted[i].call == c
      ensures d == s.calls[c].db && s.dbs[d].accepted[i] == s.calls[c].job && PastSend(s.calls[c].state)
    {
      assert DbOk(s, d);
    }
    assert DbOk(s, s.calls[c].db);
  }

  predicate GaveUp<R>(st: CallState<R>)
  {
    st.Returned? && !st.outcome.Reply?
  }

  lemma GivenUpStep<S(!new), R(!new)>(s: Sys<S, R>, step: Step<S, R>, c: nat)
    requires Enabled(s, step) && c in Apply(s, step).calls && GaveUp(Apply(s, step).calls[c].state)
    ensures c in s.calls && (GaveUp(s.calls[c].state) || s.calls[c].cancelled)
  {
  }

  /** Only a call whose context was cancelled gives up. */
  lemma {:induction false} GivesUpOnlyIfCancelled<S(!new), R(!new)>(s: Sys<S, R>, steps: seq<Step<S, R>>, c: nat)
    requires Legal(s, steps) && c in Run(s, steps).calls && GaveUp(Run(s, steps).calls[c].state)
    requires c in s.calls ==> !s.calls[c].cancelled && !GaveUp(s.calls[c].state)
    ensures Cancel(c) in steps
    decreases |steps|
  {
    if steps != [] {
      var t := Apply(s, steps[0]);
      assert steps == [steps[0]] + steps[1..];
      if c in t.calls && GaveUp(t.calls[c].state) {
        GivenUpStep(s, steps[0], c);
      } else if c in s.calls {
        CallStays(s, steps[0], c);
        if steps[0] != Cancel(c) {
          GivesUpOnlyIfCancelled(t, steps[1..], c);
        }
      } else {
        assert c in t.calls ==> !t.calls[c].cancelled;
        GivesUpOnlyIfCancelled(t, steps[1..], c);
      }
    }
  }

  lemma {:induction false} RunKeepsDepth<S(!new), R(!new)>(s: Sys<S, R>, steps: seq<Step<S, R>>)
    requires Legal(s, steps)
    ensures Run(s, steps).maxDepth == s.maxDepth
    decreases |steps|
  {
    if steps != [] {
      RunKeepsDepth(Apply(s, steps[0]), steps[1..]);
    }
  }

  /** No channel ever holds more jobs than the depth asked for, or 256 if that is not positive. */
  lemma BufferIsBounded<S(!new), R(!new)>(maxDepth: int, init: string -> S, s: Sys<S, R>, d: string)
    requires Reachable(maxDepth, init, s) && d in s.dbs
    ensures |s.dbs[d].buf| <= if maxDepth <= 0 then 256 else maxDepth
  {
    var steps :| Legal(Start(maxDepth, init), steps) && Run(Start(maxDepth, init), steps) == s;
    ReachableInv(maxDepth, init, s);
    RunKeepsDepth(Start(maxDepth, init), steps);
    assert DbOk(s, d);
  }

  /** A call that is still sending can send exactly when its database's channel has room: Stop never
      catches it on a closed one. */
  lemma SendsWhenThereIsRoom<S(!new), R(!new)>(maxDepth: int, init: string -> S, s: Sys<S, R>, c: nat)
    requires Reachable(maxDepth, init, s) && InState(s, c, Sending)
    ensures s.calls[c].db in s.dbs
    ensures Enabled(s, Send(c)) <==> |s.dbs[s.calls[c].db].buf| < if maxDepth <= 0 then 256 else maxDepth
  {
    var steps :| Legal(Start(maxDepth, init), steps) && Run(Start(maxDepth, init), steps) == s;
    ReachableInv(maxDepth, init, s);
    RunKeepsDepth(Start(maxDepth, init), steps);
    assert CallOk(s, c);
  }

  /** A context that is done before the send does not keep the job from running: when the
      channel has room, both cases of the first select are ready and either may be taken. */
  lemma DoneContextMayStillRun<S(!new), R(!new)>(init: string -> S, d: string, fn: S -> (S, R))
    ensures var steps := [Begin(0, d, fn), Cancel(0), Send(0), Take(d), Finish(d)];
      && Legal(Start(1, init), steps)
      && d in Run(Start(1, init), steps).dbs
      && Run(Start(1, init), steps).dbs[d].executed == [Job(0, fn)]
  {
    var s0 := Start<S, R>(1, init);
    var s1 := Apply(s0, Begin(0, d, fn));
    var s2 := Apply(s1, Cancel(0));
    var s3 := Apply(s2, Send(0));
    var s4 := Apply(s3, Take(d));
    var s5 := Apply(s4, Finish(d));
    Chain(s4, [], Finish(d));
    Chain(s3, [Finish(d)], Take(d));
    Chain(s2, [Take(d), Finish(d)], Send(0));
    Chain(s1, [Send(0), Take(d), Finish(d)], Cancel(0));
    Chain(s0, [Cancel(0), Send(0), Take(d), Finish(d)], Begin(0, d, fn));
  }

  lemma {:induction false} Chain<S(!new), R(!new)>(s: Sys<S, R>, rest: seq<Step<S, R>>, step: Step<S, R>)
    requires Enabled(s, step) && Legal(Apply(s, step), rest)
    ensures Legal(s, [step] + rest) && Run(s, [step] + rest) == Run(Apply(s, step), rest)
  {
    assert ([step] + rest)[1..] == rest;
  }

  // ---- Workers and shutdown -------------------------------------------------------------

  /** The reply channel's single slot is always free when the worker sends on it. */
  lemma WorkerNeverBlocksOnReply<S(!new), R(!new)>(s: Sys<S, R>, d: string)
    requires Inv(s) && d in s.dbs && s.dbs[d].phase.Replying?
    ensures Enabled(s, Deliver(d))
  {
    var b := s.dbs[d];
    assert DbOk(s, d);
    var n := |b.executed| - 1;
    assert b.accepted[n] == b.phase.job;
    assert AnsweredAt(s.init(d), b.accepted, n, Delivered(b), s.calls[b.accepted[n].call].state, s.slots);
  }

  predicate IsWorkerStep<S, R>(step: Step<S, R>)
  {
    step.Take? || step.Finish? || step.Deliver? || step.Exit?
  }

  /** Steps a worker still has to take before it exits. */
  ghost function Work<S, R>(b: Db<S, R>): nat
  {
    match b.phase
    case Exited => 0
    case Idle => 1 + 3 * |b.buf|
    case Replying(_, _) => 2 + 3 * |b.buf|
    case Busy(_) => 3 + 3 * |b.buf|
  }

  ghost function WorkOf<S(!new), R(!new)>(s: Sys<S, R>): map<string, nat>
  {
    map d | d in s.dbs :: Work(s.dbs[d])
  }

  ghost function TotalWork<S(!new), R(!new)>(s: Sys<S, R>): nat
  {
    Total(WorkOf(s))
  }

  lemma NobodySendsAfterStop<S(!new), R(!new)>(s: Sys<S, R>)
    requires Inv(s) && s.stop != NotStopped
    ensures forall c :: c in s.calls ==> !s.calls[c].state.Sending?
  {
    forall c | c in s.calls ensures !s.calls[c].state.Sending? {
      assert CallOk(s, c);
    }
  }

  /** Replacing one database changes the total by that database's share. */
  lemma WorkPut<S(!new), R(!new)>(s: Sys<S, R>, t: Sys<S, R>, d: string, b: Db<S, R>)
    requires d in s.dbs && t.dbs == s.dbs[d := b]
    ensures TotalWork(t) == TotalWork(s) - Work(s.dbs[d]) + Work(b)
  {
    var w := WorkOf(s);
    TotalSplit(w, d);
    TotalUpdate(w, d, Work(b));
    assert WorkOf(t) == w[d := Work(b)];
  }

  lemma WorkerStepWork<S(!new), R(!new)>(s: Sys<S, R>, step: Step<S, R>)
    requires Enabled(s, step) && IsWorkerStep(step)
    ensures step.db in s.dbs && step.db in Apply(s, step).dbs
    ensures Apply(s, step).dbs == s.dbs[step.db := Apply(s, step).dbs[step.db]]
    ensures Work(Apply(s, step).dbs[step.db]) == Work(s.dbs[step.db]) - 1
  {
  }

  /** While Stop waits, every worker step uses up exactly one unit of work and nothing else
      adds any. */
  lemma DrainStep<S(!new), R(!new)>(s: Sys<S, R>, step: Step<S, R>)
    requires Inv(s) && Enabled(s, step) && s.stop == Draining
    ensures TotalWork(Apply(s, step)) == TotalWork(s) - (if IsWorkerStep(step) then 1 else 0)
    ensures Apply(s, step).stop == if step == StopReturn then Stopped else Draining
  {
    var t := Apply(s, step);
    if IsWorkerStep(step) {
      WorkerStepWork(s, step);
      WorkPut(s, t, step.db, t.dbs[step.db]);
    } else {
      NobodySendsAfterStop(s);
      assert t.dbs == s.dbs;
    }
  }

  /** Stop never hangs: until every worker has exited, some worker step is enabled. */
  lemma DrainProgress<S(!new), R(!new)>(s: Sys<S, R>)
    requires Inv(s) && s.stop == Draining
    ensures Enabled(s, StopReturn) || exists step :: IsWorkerStep(step) && Enabled(s, step)
  {
    if !Enabled(s, StopReturn) {
      var d :| d in s.dbs && !s.dbs[d].phase.Exited?;
      assert DbOk(s, d);
      var step: Step<S, R> := match s.dbs[d].phase
        case Idle => if s.dbs[d].buf == [] then Exit(d) else Take(d)
        case Busy(_) => Finish(d)
        case _ => Deliver(d);
      if step.Deliver? {
        WorkerNeverBlocksOnReply(s, d);
      }
      assert IsWorkerStep(step) && Enabled(s, step);
    }
  }

  ghost function WorkerSteps<S, R>(steps: seq<Step<S, R>>): nat
  {
    if steps == [] then 0 else (if IsWorkerStep(steps[0]) then 1 else 0) + WorkerSteps(steps[1..])
  }

  /** Along any run after Stop has closed the channels, worker steps count the pending work
      down; when it is used up, and only then, Stop can return, and by then every accepted
      job of every database has run. */
  lemma {:induction false} DrainTerminates<S(!new), R(!new)>(s: Sys<S, R>, steps: seq<Step<S, R>>)
    requires Inv(s) && s.stop == Draining && Legal(s, steps) && StopReturn !in steps
    ensures WorkerSteps(steps) + TotalWork(Run(s, steps)) == TotalWork(s)
    ensures Enabled(Run(s, steps), StopReturn) <==> WorkerSteps(steps) == TotalWork(s)
    ensures Enabled(Run(s, steps), StopReturn) ==>
      forall d :: d in Run(s, steps).dbs ==> Run(s, steps).dbs[d].executed == Run(s, steps).dbs[d].accepted
    decreases |steps|
  {
    if steps == [] {
      AllExitedIffNoWork(s);
    } else {
      DrainStep(s, steps[0]);
      InvStep(s, steps[0]);
      DrainTerminates(Apply(s, steps[0]), steps[1..]);
    }
  }

  lemma AllExitedIffNoWork<S(!new), R(!new)>(s: Sys<S, R>)
    requires Inv(s) && s.stop == Draining
    ensures Enabled(s, StopReturn) <==> TotalWork(s) == 0
    ensures Enabled(s, StopReturn) ==> forall d :: d in s.dbs ==> s.dbs[d].executed == s.dbs[d].accepted
  {
    if Enabled(s, StopReturn) {
      forall d | d in s.dbs ensures s.dbs[d].executed == s.dbs[d].accepted {
        assert DbOk(s, d);
      }
      TotalOfZeros(WorkOf(s));
    } else {
      var d :| d in s.dbs && !s.dbs[d].phase.Exited?;
      TotalBoundsEach(WorkOf(s), d);
    }
  }

  /** Once Stop has returned, nothing accepted was lost. */
  lemma StoppedMeansDrained<S(!new), R(!new)>(maxDepth: int, init: string -> S, s: Sys<S, R>, d: string)
    requires Reachable(maxDepth, init, s) && s.stop == Stopped && d in s.dbs
    ensures s.dbs[d].executed == s.dbs[d].accepted
  {
    ReachableInv(maxDepth, init, s);
    assert DbOk(s, d);
  }
}
