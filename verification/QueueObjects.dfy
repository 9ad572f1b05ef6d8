/** The queue as the program holds it: a map of channels behind a mutex, one worker object per
    database. Each method is one critical section or one goroutine's code; its contract is the
    matching move of the step system in DbQueue. */
module QueueObjects {
  import opened DbQueue
  import opened MapSums
  import opened Prelude

  /** A channel together with the goroutine that ranges over it and the database it writes. */
  class Worker<S(!new), R(!new)> {
    const name: string
    var buf: seq<Job<S, R>>
    var closed: bool
    var phase: Phase<S, R>
    var state: S
    ghost var accepted: seq<Job<S, R>>
    ghost var executed: seq<Job<S, R>>

    ghost function View(): Db<S, R>
      reads this
    {
      Db(buf, closed, phase, state, accepted, executed)
    }

    constructor (name: string, init: S)
      ensures View() == NewDb(init) && this.name == name
    {
      this.name := name;
      buf, closed, phase, state := [], false, Idle, init;
      accepted, executed := [], [];
    }

    /** The send case of Enqueue's first select: ready exactly when the buffer has room. */
    method TrySend(j: Job<S, R>, maxDepth: nat) returns (ok: bool)
      requires !closed
      modifies this
      ensures ok <==> |old(buf)| < maxDepth
      ensures View() == if ok then SendTo(old(View()), j) else old(View())
    {
      ok := |buf| < maxDepth;
      if ok {
        buf := buf + [j];
        accepted := accepted + [j];
      }
    }

    method Close()
      modifies this`closed
      ensures View() == old(View()).(closed := true)
    {
      closed := true;
    }

    /** One iteration of runWorker: receive, run, reply. */
    method ServeOne() returns (call: nat, result: R)
      requires phase == Idle && buf != []
      modifies this
      ensures View() == FinishIn(TakeFrom(old(View()))).(phase := Idle)
      ensures call == old(buf)[0].call && result == SeqResult(old(state), old(buf), 0)
    {
      var j := buf[0];
      buf := buf[1..];
      phase := Busy(j);
      var out := j.fn(state);
      state := out.0;
      executed := executed + [j];
      phase := Replying(j, out.1);
      call, result := j.call, out.1;
      phase := Idle;
    }

    /** The range loop of runWorker over a channel that has been closed: it drains the buffer in
        order, answers every job, and leaves. */
    method RunWorker() returns (replies: seq<(nat, R)>)
      requires closed && phase == Idle
      modifies this
      ensures buf == [] && closed && phase == Exited
      ensures accepted == old(accepted) && executed == old(executed) + old(buf)
      ensures old(accepted) == old(executed) + old(buf) ==> executed == accepted
      ensures state == SeqState(old(state), old(buf))
      ensures |replies| == |old(buf)|
      ensures forall i :: 0 <= i < |replies| ==>
        replies[i] == (old(buf)[i].call, SeqResult(old(state), old(buf), i))
    {
      ghost var jobs, init, done := buf, state, executed;
      replies := [];
      while buf != []
        invariant closed && phase == Idle && accepted == old(accepted)
        invariant |replies| <= |jobs| && buf == jobs[|replies|..]
        invariant executed == done + jobs[..|replies|]
        invariant state == SeqState(init, jobs[..|replies|])
        invariant forall i :: 0 <= i < |replies| ==> replies[i] == (jobs[i].call, SeqResult(init, jobs, i))
        decreases |buf|
      {
        ghost var n := |replies|;
        NextJob(init, jobs, n);
        Associates(done, jobs[..n], [jobs[n]]);
        var call, result := ServeOne();
        replies := replies + [(call, result)];
      }
      phase := Exited;
      assert jobs[..|replies|] == jobs;
    }
  }

  class Queue<S(!new), R(!new)> {
    var workers: map<string, Worker<S, R>>
    const maxDepth: nat
    /** Every worker ever started, whether or not a name still leads to it. */
    ghost var spawned: set<Worker<S, R>>

    /** The channel is the one its database's name leads to. */
    predicate Registered(w: Worker<S, R>)
      reads this
    {
      w.name in workers && workers[w.name] == w
    }

    ghost predicate Valid()
      reads this, spawned
    {
      && maxDepth > 0
      && (forall d :: d in workers ==> workers[d] in spawned && workers[d].name == d)
      && (forall w :: w in spawned ==> (w.closed <==> !Registered(w)))
    }

    constructor (maxDepth: int)
      ensures Valid() && workers == map[] && spawned == {}
      ensures this.maxDepth == if maxDepth <= 0 then 256 else maxDepth
    {
      this.maxDepth := if maxDepth <= 0 then 256 else maxDepth;
      workers, spawned := map[], {};
    }

    /** workerFor: the registered channel, or a new one with its worker, also for a name whose
        earlier channel Stop has closed. */
    method WorkerFor(name: string, init: S) returns (w: Worker<S, R>)
      requires Valid()
      modifies this
      ensures Valid() && name in workers && workers[name] == w && !w.closed
      ensures name in old(workers) ==> workers == old(workers) && spawned == old(spawned)
      ensures name !in old(workers) ==>
        fresh(w) && w.View() == NewDb(init) && workers == old(workers)[name := w] && spawned == old(spawned) + {w}
    {
      if name in workers {
        w := workers[name];
      } else {
        w := new Worker(name, init);
        workers := workers[name := w];
        spawned := spawned + {w};
      }
    }

    /** The locked part of Stop: close every registered channel and forget its name. Buffered jobs
        and workers already closed stay as they are. */
    method CloseAll()
      requires Valid()
      modifies this`workers, spawned`closed
      ensures Valid() && workers == map[]
      ensures forall w :: w in spawned ==> w.View() == old(w.View()).(closed := true)
    {
      while workers != map[]
        invariant Valid()
        decreases |workers|
      {
        var name :| name in workers;
        var w := workers[name];
        w.Close();
        workers := workers - {name};
      }
    }

    ghost function Depths(): map<string, nat>
      reads this, workers.Values
    {
      map d | d in workers :: |workers[d].buf|
    }

    /** Depth: jobs buffered in all registered channels. */
    method Depth() returns (n: nat)
      ensures n == Total(Depths())
    {
      n := 0;
      var rest := workers;
      ghost var left := Depths();
      while rest != map[]
        invariant left.Keys == rest.Keys
        invariant forall d :: d in rest ==> d in workers && rest[d] == workers[d] && left[d] == |workers[d].buf|
        invariant n + Total(left) == Total(Depths())
        decreases |rest|
      {
        var d :| d in rest;
        TotalSplit(left, d);
        n := n + |rest[d].buf|;
        rest := rest - {d};
        left := left - {d};
      }
      assert left == map[];
    }
  }
}
