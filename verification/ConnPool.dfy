/** The connection pool (server/db/pool.go): Get looks the name up under the read lock and, on a
    miss, again under the write lock before it opens; Remove and Close drop connections under the
    write lock. Modelled as atomic steps of any number of processes, interleaved at will. */
module ConnPool {
  import opened Prelude

  type Handle = nat

  /** Where a process is inside a call. */
  datatype Pc =
    | Idle
    | GetRLock(name: string) | GetRead(name: string) | GetRUnlock(name: string, found: Option<Handle>)
    | GetLock(name: string) | GetRecheck(name: string) | GetOpen(name: string)
    | GetStore(name: string, handle: Handle) | GetUnlock(name: string, found: Option<Handle>)
    | Returned(name: string, found: Option<Handle>)
    | RemLock(name: string) | RemClose(name: string) | RemDelete(name: string) | RemUnlock(name: string)
    | RemFiles(name: string)
    | CloseLock | CloseNext | CloseDelete(name: string) | CloseUnlock

  /** What happened, in order: calls starting, and the moments at which the map is read or written. */
  datatype Event =
    | Called(p: nat)
    | Found(p: nat, name: string, handle: Handle)
    | Opened(p: nat, name: string, handle: Handle)
    | Dropped(name: string)

  /** The RWMutex (its readers and its writer), the map, the open handles with the name each was
      opened for, and those open handles whose files were deleted. */
  datatype State = State(
    readers: set<nat>, writer: Option<nat>, conns: map<string, Handle>, open: map<Handle, string>,
    orphans: set<Handle>, next: Handle, pcs: map<nat, Pc>, log: seq<Event>)

  const Initial := State({}, None, map[], map[], {}, 0, map[], [])

  datatype Step =
    | StartGet(p: nat, name: string)
    | StartRemove(p: nat, name: string)
    | StartClose(p: nat)
    | Move(p: nat, opens: bool, pick: string)   // opens: whether open succeeds; pick: Close's next name

  function PcOf(s: State, p: nat): Pc
  {
    if p in s.pcs then s.pcs[p] else Idle
  }

  predicate AtRest(pc: Pc)
  {
    pc.Idle? || pc.Returned?
  }

  predicate Enabled(s: State, step: Step)
  {
    match step
    case StartGet(p, _) => AtRest(PcOf(s, p))
    case StartRemove(p, _) => AtRest(PcOf(s, p))
    case StartClose(p) => AtRest(PcOf(s, p))
    case Move(p, _, pick) =>
      match PcOf(s, p)
      case GetRLock(_) => s.writer.None?
      case GetLock(_) => s.writer.None? && s.readers == {}
      case RemLock(_) => s.writer.None? && s.readers == {}
      case CloseLock => s.writer.None? && s.readers == {}
      case CloseNext => s.conns == map[] || pick in s.conns
      case pc => !AtRest(pc)
  }

  /** db.Close on the connection of name. */
  function CloseConn(s: State, name: string): State
  {
    if name in s.conns then s.(open := s.open - {s.conns[name]}) else s
  }

  function DropConn(s: State, name: string): State
  {
    s.(conns := s.conns - {name})
  }

  /** What one step of Get does to everything but the program counters and the history. */
  function GetEffect(s: State, p: nat, pc: Pc, opens: bool): State
  {
    match pc
    case GetRLock(_) => s.(readers := s.readers + {p})
    case GetRUnlock(_, _) => s.(readers := s.readers - {p})
    case GetLock(_) => s.(writer := Some(p))
    case GetOpen(name) => if opens then s.(open := s.open[s.next := name], next := s.next + 1) else s
    case GetStore(name, h) => s.(conns := s.conns[name := h])
    case GetUnlock(_, _) => s.(writer := None)
    case _ => s
  }

  /** Where that step leads. */
  function GetNext(s: State, pc: Pc, opens: bool): Pc
  {
    match pc
    case GetRLock(name) => GetRead(name)
    case GetRead(name) => GetRUnlock(name, if name in s.conns then Some(s.conns[name]) else None)
    case GetRUnlock(name, found) => if found.Some? then Returned(name, found) else GetLock(name)
    case GetLock(name) => GetRecheck(name)
    case GetRecheck(name) => if name in s.conns then GetUnlock(name, Some(s.conns[name])) else GetOpen(name)
    case GetOpen(name) => if opens then GetStore(name, s.next) else GetUnlock(name, None)
    case GetStore(name, h) => GetUnlock(name, Some(h))
    case GetUnlock(name, found) => Returned(name, found)
    case _ => pc
  }

  function RemoveEffect(s: State, p: nat, pc: Pc): State
  {
    match pc
    case RemLock(_) => s.(writer := Some(p))
    case RemClose(name) => CloseConn(s, name)
    case RemDelete(name) => DropConn(s, name)
    case RemUnlock(_) => s.(writer := None)
    case RemFiles(name) => s.(orphans := s.orphans + OpenFor(s, name))
    case _ => s
  }

  function RemoveNext(s: State, pc: Pc): Pc
  {
    match pc
    case RemLock(name) => RemClose(name)
    case RemClose(name) => if name in s.conns then RemDelete(name) else RemUnlock(name)
    case RemDelete(name) => RemUnlock(name)
    case RemUnlock(name) => RemFiles(name)
    case _ => Idle
  }

  function CloseEffect(s: State, p: nat, pc: Pc, pick: string): State
  {
    match pc
    case CloseLock => s.(writer := Some(p))
    case CloseNext => CloseConn(s, pick)
    case CloseDelete(name) => DropConn(s, name)
    case CloseUnlock => s.(writer := None)
    case _ => s
  }

  function CloseNextPc(s: State, pc: Pc, pick: string): Pc
  {
    match pc
    case CloseLock => CloseNext
    case CloseNext => if s.conns == map[] then CloseUnlock else CloseDelete(pick)
    case CloseDelete(_) => CloseNext
    case _ => Idle
  }

  predicate InRemove(pc: Pc)
  {
    pc.RemLock? || pc.RemClose? || pc.RemDelete? || pc.RemUnlock? || pc.RemFiles?
  }

  predicate InClose(pc: Pc)
  {
    pc.CloseLock? || pc.CloseNext? || pc.CloseDelete? || pc.CloseUnlock?
  }

  function Effect(s: State, step: Step): State
  {
    if !step.Move? then s
    else
      var pc := PcOf(s, step.p);
      if InRemove(pc) then RemoveEffect(s, step.p, pc)
      else if InClose(pc) then CloseEffect(s, step.p, pc, step.pick)
      else GetEffect(s, step.p, pc, step.opens)
  }

  function NextPc(s: State, step: Step): Pc
  {
    match step
    case StartGet(_, name) => GetRLock(name)
    case StartRemove(_, name) => RemLock(name)
    case StartClose(_) => CloseLock
    case Move(p, opens, pick) =>
      var pc := PcOf(s, p);
      if InRemove(pc) then RemoveNext(s, pc)
      else if InClose(pc) then CloseNextPc(s, pc, pick)
      else GetNext(s, pc, opens)
  }

  /** The event a Get adds to the history when it reads or writes the map. */
  function GetEvent(s: State, p: nat, pc: Pc): Option<Event>
  {
    match pc
    case GetRead(name) => if name in s.conns then Some(Found(p, name, s.conns[name])) else None
    case GetRecheck(name) => if name in s.conns then Some(Found(p, name, s.conns[name])) else None
    case GetStore(name, h) => Some(Opened(p, name, h))
    case _ => None
  }

  function DropEvent(pc: Pc): Option<Event>
  {
    match pc
    case RemDelete(name) => Some(Dropped(name))
    case CloseDelete(name) => Some(Dropped(name))
    case _ => None
  }

  function EventOf(s: State, step: Step): Option<Event>
  {
    match step
    case StartGet(p, _) => Some(Called(p))
    case Move(p, _, _) =>
      var pc := PcOf(s, p);
      if InRemove(pc) || InClose(pc) then DropEvent(pc) else GetEvent(s, p, pc)
    case _ => None
  }

  function Apply(s: State, step: Step): State
  {
    var e := EventOf(s, step);
    Effect(s, step).(pcs := s.pcs[step.p := NextPc(s, step)],
                     log := if e.Some? then s.log + [e.value] else s.log)
  }

  function OpenFor(s: State, name: string): set<Handle>
  {
    set h | h in s.open && s.open[h] == name
  }

  ghost predicate Legal(s: State, steps: seq<Step>)
    decreases |steps|
  {
    steps == [] || (
      var last := |steps| - 1;
      Legal(s, steps[..last]) && Enabled(Run(s, steps[..last]), steps[last]))
  }

  function Run(s: State, steps: seq<Step>): State
    decreases |steps|
  {
    if steps == [] then s else Apply(Run(s, steps[..|steps| - 1]), steps[|steps| - 1])
  }

  // ---- The lock -------------------------------------------------------------------------

  predicate HoldsRead(pc: Pc)
  {
    pc.GetRead? || pc.GetRUnlock?
  }

  predicate HoldsWrite(pc: Pc)
  {
    pc.GetRecheck? || pc.GetOpen? || pc.GetStore? || pc.GetUnlock? || pc.RemClose? || pc.RemDelete? ||
    pc.RemUnlock? || pc.CloseNext? || pc.CloseDelete? || pc.CloseUnlock?
  }

  ghost predicate LockHeldBy(s: State, p: nat)
  {
    && (p in s.readers <==> HoldsRead(PcOf(s, p)))
    && (s.writer == Some(p) <==> HoldsWrite(PcOf(s, p)))
  }

  ghost predicate LockOk(s: State)
  {
    && (forall p {:trigger LockHeldBy(s, p)} :: LockHeldBy(s, p))
    && (s.writer.Some? ==> s.readers == {})
  }

  lemma PcStays(s: State, step: Step, p: nat)
    requires p != step.p
    ensures PcOf(Apply(s, step), p) == PcOf(s, p)
  {
  }

  lemma LockOwn(s: State, step: Step)
    requires LockHeldBy(s, step.p) && (s.writer.Some? ==> s.readers == {}) && Enabled(s, step)
    ensures var t := Apply(s, step);
      LockHeldBy(t, step.p) && (t.writer.Some? ==> t.readers == {})
  {
  }

  lemma LockOthers(s: State, step: Step, p: nat)
    requires LockHeldBy(s, step.p) && p != step.p && Enabled(s, step)
    ensures var t := Apply(s, step);
      (p in t.readers <==> p in s.readers) && (t.writer == Some(p) <==> s.writer == Some(p))
  {
  }

  lemma LockStep(s: State, step: Step)
    requires LockOk(s) && Enabled(s, step)
    ensures LockOk(Apply(s, step))
  {
    assert LockHeldBy(s, step.p);
    LockOwn(s, step);
    forall p ensures LockHeldBy(Apply(s, step), p) {
      if p != step.p {
        assert LockHeldBy(s, p);
        PcStays(s, step, p);
        LockOthers(s, step, p);
      }
    }
  }

  // ---- The map --------------------------------------------------------------------------

  /** The write-lock holder's position, or Idle. */
  function WriterPc(s: State): Pc
  {
    if s.writer.Some? then PcOf(s, s.writer.value) else Idle
  }

  /** A name being dropped: its connection is closed, its entry not yet deleted. */
  predicate Closing(s: State, name: string)
  {
    WriterPc(s) == RemDelete(name) || WriterPc(s) == CloseDelete(name)
  }

  ghost predicate EntryOk(s: State, name: string)
  {
    && (name in s.conns ==> s.conns[name] < s.next)
    && (name in s.conns && !Closing(s, name) ==> s.conns[name] in s.open && s.open[s.conns[name]] == name)
    && (Closing(s, name) ==> name in s.conns && s.conns[name] !in s.open)
  }

  /** Every open handle is in the map under its name, or about to be put there. */
  ghost predicate HandleOk(s: State, h: Handle)
  {
    h in s.open ==>
      && h < s.next
      && ((s.open[h] in s.conns && s.conns[s.open[h]] == h) || WriterPc(s) == GetStore(s.open[h], h))
  }

  ghost predicate WriterOk(s: State)
  {
    match WriterPc(s)
    case GetOpen(name) => name !in s.conns
    case GetStore(name, h) => name !in s.conns && h in s.open && s.open[h] == name && h < s.next
    case _ => true
  }

  ghost predicate MapOk(s: State)
  {
    && (forall name {:trigger EntryOk(s, name)} :: EntryOk(s, name))
    && (forall h {:trigger HandleOk(s, h)} :: HandleOk(s, h))
    && WriterOk(s)
  }

  lemma WriterAfter(s: State, step: Step)
    requires LockOk(s) && Enabled(s, step)
    ensures var t := Apply(s, step);
      WriterPc(t) == if HoldsWrite(PcOf(t, step.p)) then PcOf(t, step.p)
                     else if s.writer == Some(step.p) then Idle else WriterPc(s)
  {
    assert LockHeldBy(s, step.p);
    LockStep(s, step);
    assert LockHeldBy(Apply(s, step), step.p);
  }

  /** Only the holder of the write lock changes the map or the handles. */
  lemma OthersKeepMap(s: State, step: Step)
    requires LockOk(s) && Enabled(s, step) && MapOk(s) && !HoldsWrite(PcOf(s, step.p))
    ensures MapOk(Apply(s, step))
  {
    var t := Apply(s, step);
    WriterAfter(s, step);
    assert LockHeldBy(s, step.p);
    forall name ensures EntryOk(t, name) {
      assert EntryOk(s, name);
    }
    forall h ensures HandleOk(t, h) {
      assert HandleOk(s, h);
    }
  }

  lemma WriterKeepsEntries(s: State, step: Step, name: string)
    requires LockOk(s) && Enabled(s, step) && MapOk(s) && HoldsWrite(PcOf(s, step.p))
    ensures EntryOk(Apply(s, step), name)
  {
    WriterAfter(s, step);
    assert LockHeldBy(s, step.p);
    assert EntryOk(s, name);
    if step.Move? && PcOf(s, step.p).RemClose? {
      assert EntryOk(s, PcOf(s, step.p).name);
    } else if step.Move? && PcOf(s, step.p).CloseNext? {
      assert EntryOk(s, step.pick);
    }
  }

  lemma WriterKeepsHandles(s: State, step: Step, h: Handle)
    requires LockOk(s) && Enabled(s, step) && MapOk(s) && HoldsWrite(PcOf(s, step.p))
    ensures HandleOk(Apply(s, step), h)
  {
    WriterAfter(s, step);
    assert LockHeldBy(s, step.p);
    assert HandleOk(s, h);
    if h in s.open {
      assert EntryOk(s, s.open[h]);
    }
  }

  lemma MapStep(s: State, step: Step)
    requires LockOk(s) && Enabled(s, step) && MapOk(s)
    ensures MapOk(Apply(s, step))
  {
    if !HoldsWrite(PcOf(s, step.p)) {
      OthersKeepMap(s, step);
    } else {
      forall name ensures EntryOk(Apply(s, step), name) {
        WriterKeepsEntries(s, step, name);
      }
      forall h ensures HandleOk(Apply(s, step), h) {
        WriterKeepsHandles(s, step, h);
      }
      WriterAfter(s, step);
      assert LockHeldBy(s, step.p);
    }
  }

  // ---- The history ----------------------------------------------------------------------

  function Recorded(m: map<string, Handle>, e: Event): map<string, Handle>
  {
    match e
    case Opened(_, name, h) => m[name := h]
    case Dropped(name) => m - {name}
    case _ => m
  }

  /** The map that the history writes down. */
  function Replay(log: seq<Event>): map<string, Handle>
  {
    if log == [] then map[] else Recorded(Replay(log[..|log| - 1]), log[|log| - 1])
  }

  /** The event makes sense on its own after the earlier ones: a handle found is the one stored, a
      handle is opened only when none is stored, and it is a new one. */
  ghost predicate Sensible(before: seq<Event>, e: Event)
  {
    match e
    case Found(_, name, h) => name in Replay(before) && Replay(before)[name] == h
    case Opened(_, name, h) => name !in Replay(before) && Unused(before, h)
    case Dropped(name) => name in Replay(before)
    case Called(_) => true
  }

  /** Read one after another, all the events make sense. */
  ghost predicate Sequential(log: seq<Event>)
  {
    log == [] || (Sequential(log[..|log| - 1]) && Sensible(log[..|log| - 1], log[|log| - 1]))
  }

  ghost predicate Unused(log: seq<Event>, h: Handle)
  {
    forall i :: 0 <= i < |log| && log[i].Opened? ==> log[i].handle != h
  }

  /** The name and handle process p has read or stored since its last call began. */
  function Latest(log: seq<Event>, p: nat): Option<(string, Handle)>
  {
    if log == [] then None
    else
      match log[|log| - 1]
      case Called(q) => if p == q then None else Latest(log[..|log| - 1], p)
      case Found(q, name, h) => if p == q then Some((name, h)) else Latest(log[..|log| - 1], p)
      case Opened(q, name, h) => if p == q then Some((name, h)) else Latest(log[..|log| - 1], p)
      case Dropped(_) => Latest(log[..|log| - 1], p)
  }

  /** A process about to return a handle has that handle on record. */
  ghost predicate ResultOk(s: State, p: nat)
  {
    match PcOf(s, p)
    case GetRUnlock(name, Some(h)) => Latest(s.log, p) == Some((name, h))
    case GetUnlock(name, Some(h)) => Latest(s.log, p) == Some((name, h))
    case Returned(name, Some(h)) => Latest(s.log, p) == Some((name, h))
    case _ => true
  }

  ghost predicate LogOk(s: State)
  {
    && Replay(s.log) == s.conns && Sequential(s.log)
    && (forall i :: 0 <= i < |s.log| && s.log[i].Opened? ==> s.log[i].handle < s.next)
    && (WriterPc(s).GetStore? ==> Unused(s.log, WriterPc(s).handle))
    && (forall p {:trigger ResultOk(s, p)} :: ResultOk(s, p))
  }

  lemma {:induction false} AppendEvent(log: seq<Event>, e: Event)
    ensures Replay(log + [e]) == Recorded(Replay(log), e)
    ensures Sequential(log) && Sensible(log, e) ==> Sequential(log + [e])
    ensures forall p :: (e.Dropped? || e.p != p) ==> Latest(log + [e], p) == Latest(log, p)
    ensures e.Found? || e.Opened? ==> Latest(log + [e], e.p) == Some((e.name, e.handle))
  {
    assert (log + [e])[..|log + [e]| - 1] == log;
  }

  lemma GetRecords(s: State, p: nat, pc: Pc, opens: bool)
    ensures var e := GetEvent(s, p, pc);
      GetEffect(s, p, pc, opens).conns == if e.Some? then Recorded(s.conns, e.value) else s.conns
    ensures s.next <= GetEffect(s, p, pc, opens).next
  {
  }

  lemma DropsRecord(s: State, p: nat, pc: Pc, pick: string)
    ensures var e := DropEvent(pc);
      && (InRemove(pc) ==> RemoveEffect(s, p, pc).conns == if e.Some? then Recorded(s.conns, e.value) else s.conns)
      && (InClose(pc) ==> CloseEffect(s, p, pc, pick).conns == if e.Some? then Recorded(s.conns, e.value) else s.conns)
    ensures RemoveEffect(s, p, pc).next == s.next == CloseEffect(s, p, pc, pick).next
  {
  }

  /** A step adds its event, and changes the map as the event says. */
  lemma LogGrows(s: State, step: Step)
    ensures var t, e := Apply(s, step), EventOf(s, step);
      && t.log == (if e.Some? then s.log + [e.value] else s.log)
      && t.conns == (if e.Some? then Recorded(s.conns, e.value) else s.conns)
      && s.next <= t.next
  {
    if step.Move? {
      GetRecords(s, step.p, PcOf(s, step.p), step.opens);
      DropsRecord(s, step.p, PcOf(s, step.p), step.pick);
    }
  }

  lemma SensibleStep(s: State, step: Step)
    requires LockOk(s) && MapOk(s) && LogOk(s) && EventOf(s, step).Some?
    ensures Sensible(s.log, EventOf(s, step).value)
  {
    assert LockHeldBy(s, step.p);
    var pc := PcOf(s, step.p);
    if pc.RemDelete? || pc.CloseDelete? {
      assert EntryOk(s, pc.name);
    }
  }

  lemma SequentialStep(s: State, step: Step)
    requires LockOk(s) && MapOk(s) && LogOk(s) && Enabled(s, step)
    ensures Replay(Apply(s, step).log) == Apply(s, step).conns && Sequential(Apply(s, step).log)
  {
    LogGrows(s, step);
    var e := EventOf(s, step);
    if e.Some? {
      SensibleStep(s, step);
      AppendEvent(s.log, e.value);
    }
  }

  lemma OtherResults(s: State, t: State, e: Option<Event>, p: nat)
    requires ResultOk(s, p) && PcOf(t, p) == PcOf(s, p)
    requires t.log == if e.Some? then s.log + [e.value] else s.log
    requires e.Some? && !e.value.Dropped? ==> e.value.p != p
    ensures ResultOk(t, p)
  {
    if e.Some? {
      AppendEvent(s.log, e.value);
    }
  }

  lemma OwnResult(s: State, step: Step)
    requires ResultOk(s, step.p) && Enabled(s, step)
    ensures ResultOk(Apply(s, step), step.p)
  {
    LogGrows(s, step);
    var e := EventOf(s, step);
    if e.Some? {
      AppendEvent(s.log, e.value);
    }
  }

  lemma ResultStep(s: State, step: Step, p: nat)
    requires ResultOk(s, p) && Enabled(s, step)
    ensures ResultOk(Apply(s, step), p)
  {
    if p == step.p {
      OwnResult(s, step);
    } else {
      LogGrows(s, step);
      PcStays(s, step, p);
      OtherResults(s, Apply(s, step), EventOf(s, step), p);
    }
  }

  lemma UnusedStep(s: State, step: Step)
    requires LockOk(s) && MapOk(s) && LogOk(s) && Enabled(s, step)
    ensures var t := Apply(s, step);
      && (forall i :: 0 <= i < |t.log| && t.log[i].Opened? ==> t.log[i].handle < t.next)
      && (WriterPc(t).GetStore? ==> Unused(t.log, WriterPc(t).handle))
  {
    var t := Apply(s, step);
    assert LockHeldBy(s, step.p);
    WriterAfter(s, step);
    LogGrows(s, step);
  }

  ghost predicate Inv(s: State)
  {
    LockOk(s) && MapOk(s) && LogOk(s)
  }

  lemma InvStep(s: State, step: Step)
    requires Inv(s) && Enabled(s, step)
    ensures Inv(Apply(s, step))
  {
    LockStep(s, step);
    MapStep(s, step);
    SequentialStep(s, step);
    UnusedStep(s, step);
    forall p ensures ResultOk(Apply(s, step), p) {
      ResultStep(s, step, p);
    }
  }

  lemma {:induction false} InvRun(s: State, steps: seq<Step>)
    requires Inv(s) && Legal(s, steps)
    ensures Inv(Run(s, steps))
  {
    if steps != [] {
      var last := |steps| - 1;
      InvRun(s, steps[..last]);
      InvStep(Run(s, steps[..last]), steps[last]);
    }
  }

  lemma InitialInv()
    ensures Inv(Initial)
  {
    forall p ensures LockHeldBy(Initial, p) {}
    forall name ensures EntryOk(Initial, name) {}
    forall h ensures HandleOk(Initial, h) {}
    forall p ensures ResultOk(Initial, p) {}
  }

  lemma {:induction false} AlwaysInv(steps: seq<Step>)
    requires Legal(Initial, steps)
    ensures Inv(Run(Initial, steps))
  {
    InitialInv();
    InvRun(Initial, steps);
  }

  // ---- What every run guarantees --------------------------------------------------------

  /** Under every interleaving, no name ever has two open handles, the one being opened included. */
  lemma {:induction false} OneHandlePerName(steps: seq<Step>, h: Handle, h': Handle)
    requires Legal(Initial, steps)
    ensures var s := Run(Initial, steps);
      h in s.open && h' in s.open && s.open[h] == s.open[h'] ==> h == h'
  {
    AlwaysInv(steps);
    var s := Run(Initial, steps);
    assert HandleOk(s, h) && HandleOk(s, h');
  }

  /** The interleaved calls have a sequential history: it explains the map, and every handle a Get
      returns was read or stored at a moment inside that call. */
  lemma {:induction false} Linearizable(steps: seq<Step>, p: nat)
    requires Legal(Initial, steps)
    ensures var s := Run(Initial, steps);
      && Sequential(s.log) && Replay(s.log) == s.conns
      && (PcOf(s, p).Returned? && PcOf(s, p).found.Some? ==>
            Latest(s.log, p) == Some((PcOf(s, p).name, PcOf(s, p).found.value)))
  {
    AlwaysInv(steps);
    var s := Run(Initial, steps);
    if PcOf(s, p).Returned? && PcOf(s, p).found.Some? {
      ResultOnRecord(s, p);
    }
  }

  lemma {:induction false} ResultOnRecord(s: State, p: nat)
    requires LogOk(s) && PcOf(s, p).Returned? && PcOf(s, p).found.Some?
    ensures Latest(s.log, p) == Some((PcOf(s, p).name, PcOf(s, p).found.value))
  {
    assert ResultOk(s, p);
  }

  /** The event yields this handle for this name. */
  predicate Yields(e: Event, name: string, h: Handle)
  {
    (e.Found? || e.Opened?) && e.name == name && e.handle == h
  }

  lemma {:induction false} YieldedStays(log: seq<Event>, i: nat, j: nat, name: string, h: Handle)
    requires Sequential(log) && i < j <= |log| && Yields(log[i], name, h)
    requires forall k :: i < k < j ==> log[k] != Dropped(name)
    ensures name in Replay(log[..j]) && Replay(log[..j])[name] == h
    decreases j
  {
    SequentialPrefix(log, j);
    assert log[..j][..j - 1] == log[..j - 1];
    if i < j - 1 {
      YieldedStays(log, i, j - 1, name, h);
    }
  }

  lemma {:induction false} SequentialPrefix(log: seq<Event>, n: nat)
    requires Sequential(log) && n <= |log|
    ensures Sequential(log[..n])
    decreases |log|
  {
    if n < |log| {
      SequentialPrefix(log[..|log| - 1], n);
      assert log[..|log| - 1][..n] == log[..n];
    } else {
      assert log[..n] == log;
    }
  }

  lemma {:induction false} SameHandleInHistory(log: seq<Event>, i: nat, j: nat, name: string, h: Handle, h': Handle)
    requires Sequential(log) && i < j < |log| && Yields(log[i], name, h) && Yields(log[j], name, h')
    ensures h == h' <==> forall k :: i < k < j ==> log[k] != Dropped(name)
  {
    SequentialPrefix(log, j + 1);
    assert log[..j + 1][..j] == log[..j];
    assert Sensible(log[..j], log[j]);
    if k :| i < k < j && log[k] == Dropped(name) {
      DroppedForGood(log, i, k, j, name, h);
      var o :| 0 <= o <= i && log[o].Opened? && log[o].handle == h;
      assert log[..j][o] == log[o];
    } else {
      YieldedStays(log, i, j, name, h);
    }
  }

  /** Between two removals of a name, all Gets of it yield the same handle; across a removal they
      never do. */
  lemma {:induction false} SameHandleUntilDropped(steps: seq<Step>, i: nat, j: nat, name: string, h: Handle, h': Handle)
    requires Legal(Initial, steps)
    requires var log := Run(Initial, steps).log;
      i < j < |log| && Yields(log[i], name, h) && Yields(log[j], name, h')
    ensures h == h' <==> forall k :: i < k < j ==> Run(Initial, steps).log[k] != Dropped(name)
  {
    Linearizable(steps, 0);
    SameHandleInHistory(Run(Initial, steps).log, i, j, name, h, h');
  }

  /** A handle seen before is never opened again, so once dropped it is never stored again. */
  lemma {:induction false} DroppedForGood(log: seq<Event>, i: nat, k: nat, j: nat, name: string, h: Handle)
    requires Sequential(log) && i < k < j <= |log| && Yields(log[i], name, h) && log[k] == Dropped(name)
    ensures name in Replay(log[..j]) ==> Replay(log[..j])[name] != h
    ensures exists o :: 0 <= o <= i && log[o].Opened? && log[o].handle == h
    decreases j
  {
    SomeoneOpened(log, i, name, h);
    SequentialPrefix(log, j);
    assert log[..j][..j - 1] == log[..j - 1];
    if k < j - 1 {
      DroppedForGood(log, i, k, j - 1, name, h);
      var o :| 0 <= o <= i && log[o].Opened? && log[o].handle == h;
      assert log[..j - 1][o] == log[o];
    }
  }

  lemma {:induction false} SomeoneOpened(log: seq<Event>, i: nat, name: string, h: Handle)
    requires Sequential(log) && i < |log| && Yields(log[i], name, h)
    ensures exists o :: 0 <= o <= i && log[o].Opened? && log[o].handle == h
  {
    SequentialPrefix(log, i + 1);
    assert log[..i + 1][..i] == log[..i];
    if log[i].Found? {
      StoredWasOpened(log, i, name);
    }
  }

  lemma {:induction false} StoredWasOpened(log: seq<Event>, n: nat, name: string)
    requires n <= |log| && name in Replay(log[..n])
    ensures exists o :: 0 <= o < n && log[o].Opened? && log[o].handle == Replay(log[..n])[name]
  {
    if n > 0 {
      assert log[..n][..n - 1] == log[..n - 1];
      if log[n - 1].Opened? && log[n - 1].name == name {
        assert log[n - 1].handle == Replay(log[..n])[name];
      } else {
        StoredWasOpened(log, n - 1, name);
      }
    }
  }

  /** The latest call of process p. */
  function LatestCall(steps: seq<Step>, p: nat): Option<Step>
  {
    if steps == [] then None
    else
      var last := steps[|steps| - 1];
      if last.p == p && !last.Move? then Some(last) else LatestCall(steps[..|steps| - 1], p)
  }

  /** In that call an attempt to open has failed. */
  predicate OpenFailed(steps: seq<Step>, p: nat)
  {
    if steps == [] then false
    else
      var last := steps[|steps| - 1];
      if last.p == p && !last.Move? then false
      else (last.p == p && !last.opens) || OpenFailed(steps[..|steps| - 1], p)
  }

  /** Where a process is tells which call it is in, and what that call has done: a Get is about the
      name it was called with and returns nothing only if it could not open the file; when Remove
      lets go of the lock the name is out of the map, and when Close does the map is empty. */
  ghost predicate CallOk(s: State, steps: seq<Step>, p: nat)
  {
    match PcOf(s, p)
    case Idle => true
    case GetRLock(name) => LatestCall(steps, p) == Some(StartGet(p, name))
    case GetRead(name) => LatestCall(steps, p) == Some(StartGet(p, name))
    case GetRUnlock(name, _) => LatestCall(steps, p) == Some(StartGet(p, name))
    case GetLock(name) => LatestCall(steps, p) == Some(StartGet(p, name))
    case GetRecheck(name) => LatestCall(steps, p) == Some(StartGet(p, name))
    case GetOpen(name) => LatestCall(steps, p) == Some(StartGet(p, name))
    case GetStore(name, _) => LatestCall(steps, p) == Some(StartGet(p, name))
    case GetUnlock(name, found) => LatestCall(steps, p) == Some(StartGet(p, name)) && (found.None? ==> OpenFailed(steps, p))
    case Returned(name, found) => LatestCall(steps, p) == Some(StartGet(p, name)) && (found.None? ==> OpenFailed(steps, p))
    case RemLock(name) => LatestCall(steps, p) == Some(StartRemove(p, name))
    case RemClose(name) => LatestCall(steps, p) == Some(StartRemove(p, name))
    case RemDelete(name) => LatestCall(steps, p) == Some(StartRemove(p, name))
    case RemUnlock(name) => LatestCall(steps, p) == Some(StartRemove(p, name)) && name !in s.conns
    case RemFiles(name) => LatestCall(steps, p) == Some(StartRemove(p, name))
    case CloseLock => LatestCall(steps, p) == Some(StartClose(p))
    case CloseNext => LatestCall(steps, p) == Some(StartClose(p))
    case CloseDelete(_) => LatestCall(steps, p) == Some(StartClose(p))
    case CloseUnlock => LatestCall(steps, p) == Some(StartClose(p)) && s.conns == map[]
  }

  lemma OwnCall(s: State, before: seq<Step>, step: Step)
    requires CallOk(s, before, step.p) && Enabled(s, step)
    ensures CallOk(Apply(s, step), before + [step], step.p)
  {
    assert (before + [step])[..|before + [step]| - 1] == before;
  }

  lemma {:induction false} OthersCall(s: State, before: seq<Step>, step: Step, p: nat)
    requires LockOk(s) && CallOk(s, before, p) && Enabled(s, step) && p != step.p
    ensures CallOk(Apply(s, step), before + [step], p)
  {
    assert (before + [step])[..|before + [step]| - 1] == before;
    PcStays(s, step, p);
    assert LockHeldBy(s, p) && LockHeldBy(s, step.p);
    OthersKeepConns(s, step);
  }

  lemma OthersKeepConns(s: State, step: Step)
    requires LockHeldBy(s, step.p) && Enabled(s, step)
    ensures Apply(s, step).conns == s.conns || s.writer == Some(step.p)
  {
  }

  lemma {:induction false} CallsDoTheirWork(steps: seq<Step>, p: nat)
    requires Legal(Initial, steps)
    ensures CallOk(Run(Initial, steps), steps, p)
  {
    if steps != [] {
      var before, step := steps[..|steps| - 1], steps[|steps| - 1];
      var s := Run(Initial, before);
      assert steps == before + [step];
      CallsDoTheirWork(before, p);
      AlwaysInv(before);
      if p == step.p {
        OwnCall(s, before, step);
      } else {
        OthersCall(s, before, step, p);
      }
    }
  }

  /** No deadlock: while some call is in progress, some process can move. */
  lemma SomeoneCanMove(steps: seq<Step>, p: nat) returns (step: Step)
    requires Legal(Initial, steps) && !AtRest(PcOf(Run(Initial, steps), p))
    ensures step.Move? && Enabled(Run(Initial, steps), step)
  {
    AlwaysInv(steps);
    var s := Run(Initial, steps);
    var q := p;
    if s.writer.Some? {
      q := s.writer.value;
    } else if s.readers != {} {
      q :| q in s.readers;
    }
    assert LockHeldBy(s, q) && LockHeldBy(s, p);
    var pick := "";
    if s.conns != map[] {
      pick :| pick in s.conns;
    }
    step := Move(q, true, pick);
  }

  /** Remove deletes the files after it has let go of the lock. That leaves an open handle of the
      name without its file exactly when by then a Get has opened the name again. */
  lemma {:induction false} RemoveOrphansIff(steps: seq<Step>, p: nat, name: string, opens: bool, pick: string)
    requires Legal(Initial, steps) && PcOf(Run(Initial, steps), p) == RemFiles(name)
    ensures var s := Run(Initial, steps);
      Orphaned(Apply(s, Move(p, opens, pick)), name) <==>
        (name in s.conns && !Closing(s, name)) || (WriterPc(s).GetStore? && WriterPc(s).name == name)
  {
    HandleOpenIff(steps, p, name);
    FilesGone(Run(Initial, steps), p, name, opens, pick);
  }

  /** Some open handle of the name has lost its file. */
  predicate Orphaned(s: State, name: string)
  {
    s.orphans * OpenFor(s, name) != {}
  }

  lemma FilesGone(s: State, p: nat, name: string, opens: bool, pick: string)
    requires PcOf(s, p) == RemFiles(name)
    ensures Enabled(s, Move(p, opens, pick))
    ensures Orphaned(Apply(s, Move(p, opens, pick)), name) <==> OpenFor(s, name) != {}
  {
    var t := Apply(s, Move(p, opens, pick));
    assert t.open == s.open && t.orphans == s.orphans + OpenFor(s, name);
    assert OpenFor(t, name) == OpenFor(s, name);
    if h :| h in OpenFor(s, name) {
      assert h in t.orphans * OpenFor(t, name);
    }
  }

  lemma {:induction false} HandleOpenIff(steps: seq<Step>, p: nat, name: string)
    requires Legal(Initial, steps) && PcOf(Run(Initial, steps), p) == RemFiles(name)
    ensures var s := Run(Initial, steps);
      OpenFor(s, name) != {} <==>
        (name in s.conns && !Closing(s, name)) || (WriterPc(s).GetStore? && WriterPc(s).name == name)
  {
    AlwaysInv(steps);
    var s := Run(Initial, steps);
    assert EntryOk(s, name);
    forall h | h in OpenFor(s, name)
      ensures (name in s.conns && !Closing(s, name)) || (WriterPc(s).GetStore? && WriterPc(s).name == name)
    {
      assert HandleOk(s, h);
    }
    if name in s.conns && !Closing(s, name) {
      assert s.conns[name] in OpenFor(s, name);
    } else if WriterPc(s).GetStore? && WriterPc(s).name == name {
      assert WriterPc(s).handle in OpenFor(s, name);
    }
  }

  lemma {:induction false} Extend(s: State, steps: seq<Step>, t: State, step: Step)
    requires Legal(s, steps) && Run(s, steps) == t && Enabled(t, step)
    ensures Legal(s, steps + [step]) && Run(s, steps + [step]) == Apply(t, step)
  {
    assert (steps + [step])[..|steps|] == steps;
  }

  /** Four moves of process p in a row. */
  lemma ThreeMoves(steps: seq<Step>, p: nat) returns (more: seq<Step>)
    requires Legal(Initial, steps)
    requires var m, s := Move(p, true, ""), Run(Initial, steps);
      && Enabled(s, m) && Enabled(Apply(s, m), m) && Enabled(Apply(Apply(s, m), m), m)
    ensures Legal(Initial, more)
    ensures var m := Move(p, true, "");
      Run(Initial, more) == Apply(Apply(Apply(Run(Initial, steps), m), m), m)
  {
    var m := Move(p, true, "");
    var a := Run(Initial, steps);
    var b := Apply(a, m);
    Extend(Initial, steps, a, m);
    Extend(Initial, steps + [m], b, m);
    Extend(Initial, steps + [m] + [m], Apply(b, m), m);
    more := steps + [m] + [m] + [m];
  }

  lemma FourMoves(steps: seq<Step>, p: nat) returns (more: seq<Step>)
    requires Legal(Initial, steps)
    requires var m, s := Move(p, true, ""), Run(Initial, steps);
      && Enabled(s, m) && Enabled(Apply(s, m), m) && Enabled(Apply(Apply(s, m), m), m)
      && Enabled(Apply(Apply(Apply(s, m), m), m), m)
    ensures Legal(Initial, more)
    ensures var m := Move(p, true, "");
      Run(Initial, more) == Apply(Apply(Apply(Apply(Run(Initial, steps), m), m), m), m)
  {
    var m := Move(p, true, "");
    var three := ThreeMoves(steps, p);
    Extend(Initial, three, Run(Initial, three), m);
    more := three + [m];
  }

  /** Nothing open, nobody in the way. */
  predicate Quiet(s: State)
  {
    s.writer.None? && s.readers == {} && s.conns == map[]
  }

  lemma GetMisses(s: State, p: nat, name: string)
    requires Quiet(s) && PcOf(s, p) == GetRLock(name)
    ensures var m := Move(p, true, "");
      var a, b := Apply(s, m), Apply(Apply(s, m), m);
      && Enabled(s, m) && Enabled(a, m) && Enabled(b, m)
      && Quiet(Apply(b, m)) && PcOf(Apply(b, m), p) == GetLock(name)
      && forall q :: q != p ==> PcOf(Apply(b, m), q) == PcOf(s, q)
  {
    var m := Move(p, true, "");
    var a := Apply(s, m);
    assert PcOf(a, p) == GetRead(name) && a.conns == map[] && a.writer.None? && a.readers == {p};
    var b := Apply(a, m);
    assert PcOf(b, p) == GetRUnlock(name, None) && b.conns == map[] && b.writer.None? && b.readers == {p};
  }

  lemma GetOpens(s: State, p: nat, name: string)
    requires Quiet(s) && PcOf(s, p) == GetLock(name)
    ensures var m := Move(p, true, "");
      var a, b := Apply(s, m), Apply(Apply(s, m), m);
      var c := Apply(b, m);
      && Enabled(s, m) && Enabled(a, m) && Enabled(b, m) && Enabled(c, m)
      && PcOf(Apply(c, m), p) == GetUnlock(name, Some(s.next)) && name in Apply(c, m).conns
      && forall q :: q != p ==> PcOf(Apply(c, m), q) == PcOf(s, q)
  {
    var m := Move(p, true, "");
    var a := Apply(s, m);
    assert PcOf(a, p) == GetRecheck(name) && a.conns == map[] && a.next == s.next;
    var b := Apply(a, m);
    assert PcOf(b, p) == GetOpen(name) && b.conns == map[] && b.next == s.next;
    var c := Apply(b, m);
    assert PcOf(c, p) == GetStore(name, s.next);
  }

  lemma RemoveLetsGo(s: State, p: nat, name: string)
    requires Quiet(s) && PcOf(s, p) == RemLock(name)
    ensures var m := Move(p, true, "");
      var a, b := Apply(s, m), Apply(Apply(s, m), m);
      && Enabled(s, m) && Enabled(a, m) && Enabled(b, m)
      && Quiet(Apply(b, m)) && PcOf(Apply(b, m), p) == RemFiles(name)
      && forall q :: q != p ==> PcOf(Apply(b, m), q) == PcOf(s, q)
  {
    var m := Move(p, true, "");
    var a := Apply(s, m);
    assert PcOf(a, p) == RemClose(name) && a.conns == map[] && a.readers == {};
    var b := Apply(a, m);
    assert PcOf(b, p) == RemUnlock(name) && b.conns == map[] && b.readers == {};
  }

  /** Remove has let go of the lock. */
  lemma RemoveFirst(name: string) returns (steps: seq<Step>)
    ensures Legal(Initial, steps) && Quiet(Run(Initial, steps))
    ensures PcOf(Run(Initial, steps), 0) == RemFiles(name) && PcOf(Run(Initial, steps), 1) == Idle
  {
    var first := StartRemove(0, name);
    Extend(Initial, [], Initial, first);
    RemoveLetsGo(Apply(Initial, first), 0, name);
    steps := ThreeMoves([] + [first], 0);
  }

  /** Then a Get begins. */
  lemma StartSecond(name: string) returns (steps: seq<Step>)
    ensures Legal(Initial, steps) && Quiet(Run(Initial, steps))
    ensures PcOf(Run(Initial, steps), 0) == RemFiles(name) && PcOf(Run(Initial, steps), 1) == GetRLock(name)
  {
    var before := RemoveFirst(name);
    Extend(Initial, before, Run(Initial, before), StartGet(1, name));
    steps := before + [StartGet(1, name)];
  }

  /** It finds the map empty. */
  lemma MissSecond(name: string) returns (steps: seq<Step>)
    ensures Legal(Initial, steps) && Quiet(Run(Initial, steps))
    ensures PcOf(Run(Initial, steps), 0) == RemFiles(name) && PcOf(Run(Initial, steps), 1) == GetLock(name)
  {
    var before := StartSecond(name);
    GetMisses(Run(Initial, before), 1, name);
    steps := ThreeMoves(before, 1);
  }

  lemma GetUnlocks(s: State, p: nat, name: string)
    requires PcOf(s, p).GetUnlock?
    ensures var m := Move(p, true, "");
      && Enabled(s, m) && Apply(s, m).conns == s.conns && Apply(s, m).writer.None?
      && forall q :: q != p ==> PcOf(Apply(s, m), q) == PcOf(s, q)
  {
  }

  /** Then it has opened the name again. */
  lemma OpenThird(name: string) returns (steps: seq<Step>)
    ensures Legal(Initial, steps) && PcOf(Run(Initial, steps), 0) == RemFiles(name)
    ensures name in Run(Initial, steps).conns && PcOf(Run(Initial, steps), 1).GetUnlock?
  {
    var before := MissSecond(name);
    GetOpens(Run(Initial, before), 1, name);
    steps := FourMoves(before, 1);
  }

  /** Remove runs until it has let go of the lock, then a Get from start to end. */
  lemma GetInBetween(name: string) returns (steps: seq<Step>)
    ensures Legal(Initial, steps) && PcOf(Run(Initial, steps), 0) == RemFiles(name)
    ensures name in Run(Initial, steps).conns && Run(Initial, steps).writer.None?
  {
    var before := OpenThird(name);
    var m := Move(1, true, "");
    GetUnlocks(Run(Initial, before), 1, name);
    Extend(Initial, before, Run(Initial, before), m);
    steps := before + [m];
  }

  /** And it can: Remove then goes on and deletes the files of the handle that Get returned. */
  lemma RemoveCanOrphan(name: string) returns (steps: seq<Step>)
    ensures Legal(Initial, steps) && Orphaned(Run(Initial, steps), name)
  {
    var before := GetInBetween(name);
    var m := Move(0, true, "");
    RemoveOrphansIff(before, 0, name, true, "");
    FilesGone(Run(Initial, before), 0, name, true, "");
    NobodyCloses(Run(Initial, before), name);
    Extend(Initial, before, Run(Initial, before), m);
    steps := before + [m];
  }

  lemma NobodyCloses(s: State, name: string)
    requires s.writer.None?
    ensures !Closing(s, name)
  {
  }
}
