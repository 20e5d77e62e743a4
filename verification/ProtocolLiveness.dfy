// When requests are finished: steps cannot go on for ever without a new one, and they stop before
// everybody is done exactly when a transaction has queued SAVE or BGREWRITEAOF.
module ProtocolLiveness {
  import opened Bytes
  import opened Frames
  import opened Commands
  import opened Grouping
  import opened CrashAtomicity
  import opened Protocol
  import opened ProtocolLocks
  import opened ProtocolQueue
  import opened ProtocolDeadlock
  import opened ProtocolSchedules

  // ----- a bound on what is left to do -----

  /** Steps of one command, if the frame is one. */
  function RunWork(f: Frame, pc: nat): (n: nat)
  {
    1 + if CommandOf(f).Some? && pc < StepCount(CommandOf(f).value) then StepCount(CommandOf(f).value) - pc else 0
  }

  /** Enough for one frame to be appended, counted and sent, or for a second acquisition. */
  const ITEM_WORK: nat := SHARD_COUNT + 5

  /** A section's work from frame `pos` on: run, append, count and send each, then release. */
  function SectionWork(u: Unit, pos: nat): (n: nat)
    decreases |Items(u)| - pos
  {
    if pos >= |Items(u)| then SHARD_COUNT + 1
    else RunWork(FrameAt(u, pos), 0) + ITEM_WORK + SectionWork(u, pos + 1)
  }

  function FinishWork(fin: Finish): (n: nat)
  {
    match fin case Quit => 0 case StoreSnap(_, _, _) => 2 case Replace(_, _) => 5
  }

  function JobWork(job: Job): (n: nat)
  {
    match job case Write(u) => SectionWork(u, 0) case SaveAt(_) => 44 case Rewrite => 42 case Psync => 42
  }

  /** The steps a client can still take, and the messages it can still send. */
  function Left(p: Phase): (n: int)
  {
    match p
    case Idle => 0
    case WaitRewrite(_) => 63
    case ReadingGen(save) => if save then 62 else 42
    case Locking(job, next) => SHARD_COUNT + 1 - next + JobWork(job)
    case Running(u, pos, x) => (if pos < |Items(u)| then RunWork(FrameAt(u, pos), x.pc) else 1) + ITEM_WORK + SectionWork(u, pos + 1)
    case Appending(u, pos) => 5 + SectionWork(u, pos + 1)
    case Syncing(u, pos) => 3 + SectionWork(u, pos + 1)
    case Counting(u, pos) => 3 + SectionWork(u, pos + 1)
    case Sending(u, pos) => 2 + SectionWork(u, pos + 1)
    case NestedWait(_, _) => SHARD_COUNT + 2
    case NestedLocking(_, _, next) => SHARD_COUNT + 1 - next
    case Flushing(_) => 44
    case FlushWait(_) => 42
    case Measuring(_) => 42
    case Noting => 42
    case Walking(_, i, _) => SHARD_COUNT + 25 - i
    case Rotating(_, _) => 24
    case RotateWait(_, _) => 22
    case Registering(_, _) => 18
    case Unlocking(_, next, fin) => SHARD_COUNT + 1 - next + FinishWork(fin)
    case Storing(_, _, _) => 2
    case Replacing(_, _) => 5
    case Committing(_) => 4
    case Deleting(_) => 3
    case DeletingSnap(_) => 2
    case DropRewrite => 1
    case PubCounting(_) => 2
    case PubSending(_) => 1
  }

  function LeftTotal(ps: seq<Phase>): (n: int)
  {
    if ps == [] then 0 else LeftTotal(ps[..|ps| - 1]) + Left(ps[|ps| - 1])
  }

  function Work(s: State): (n: int) { LeftTotal(s.clients) + |s.queue| }

  lemma {:induction false} LeftUpdate(ps: seq<Phase>, c: nat, p: Phase)
    requires c < |ps|
    ensures LeftTotal(ps[c := p]) == LeftTotal(ps) - Left(ps[c]) + Left(p)
  {
    hide Left;
    var n := |ps| - 1;
    if c == n {
      assert ps[c := p][..n] == ps[..n];
    } else {
      LeftUpdate(ps[..n], c, p);
      assert ps[c := p][..n] == ps[..n][c := p];
    }
  }

  lemma {:induction false} NotNegative(ps: seq<Phase>)
    requires forall c :: 0 <= c < |ps| ==> WellFormed(ps[c])
    ensures LeftTotal(ps) >= 0
  {
    hide WellFormed;
    if ps != [] {
      NotNegative(ps[..|ps| - 1]);
      EachNotNegative(ps[|ps| - 1]);
    }
  }

  lemma EachNotNegative(p: Phase)
    requires WellFormed(p)
    ensures Left(p) >= 0
  {
    hide Items, InSection;
  }

  // ----- every step uses some of it up -----

  /** A command step that does not end the command leaves fewer. */
  lemma CommandEnds(c: Command, x: Exec, s: Store)
    ensures Step(c, x, s).1.Continue? ==> Step(c, x, s).1.x.pc == x.pc + 1 < StepCount(c)
  {
  }

  lemma StartItemWork(h: Hash, u: Unit, pos: nat)
    ensures Left(StartItem(h, u, pos)) <= SectionWork(u, pos)
  {
    hide Items, MarkerOf, Want;
  }

  lemma SectionStep(cfg: Config, s: State, c: nat)
    requires CanAct(cfg, s, c) && WellFormed(s.clients[c]) && Writing(s.clients[c])
    ensures Left(NextPhase(cfg, s, c)) + |NextQueue(cfg, s, c)| - |s.queue| < Left(s.clients[c])
  {
    hide Items, MarkerOf, Want, StartItem, Step, CommandOf, SectionWork;
    var p := s.clients[c];
    StartItemWork(cfg.h, p.u, p.pos + 1);
    if p.Running? && CommandOf(FrameAt(p.u, p.pos)).Some? {
      CommandEnds(CommandOf(FrameAt(p.u, p.pos)).value, p.x, s.store);
    }
  }

  lemma OtherStep(cfg: Config, s: State, c: nat)
    requires CanAct(cfg, s, c) && WellFormed(s.clients[c]) && !Writing(s.clients[c])
    ensures Left(NextPhase(cfg, s, c)) + |NextQueue(cfg, s, c)| - |s.queue| < Left(s.clients[c])
  {
    hide Items, MarkerOf, Want, StartItem, Step, CommandOf, SectionWork, ShardPart, InSection, IsAdmin, IsPublish, FrameAt, Submitted, RunWork;
    if s.clients[c].Locking? {
      LockStep(cfg, s, c);
    }
  }

  lemma LockStep(cfg: Config, s: State, c: nat)
    requires CanAct(cfg, s, c) && WellFormed(s.clients[c]) && s.clients[c].Locking?
    ensures Left(NextPhase(cfg, s, c)) + |NextQueue(cfg, s, c)| - |s.queue| < Left(s.clients[c])
  {
    hide Items, MarkerOf, Want, StartItem, Step, CommandOf, SectionWork, ShardPart, InSection, IsAdmin, IsPublish, FrameAt, Submitted, RunWork;
    var p := s.clients[c];
    if p.job.Write? {
      StartItemWork(cfg.h, p.job.u, 0);
    }
  }

  lemma ActUsesWork(cfg: Config, s: State, c: nat)
    requires LockInv(cfg, s) && CanAct(cfg, s, c)
    ensures Work(ActStep(cfg, s, c)) < Work(s)
  {
    hide NextPhase, NextGuards, NextStore, NextQueue, NextReplicas, NextOffset, NextSnaps, Overlaps, Left, LockInv, WellFormed;
    EachWellFormed(cfg, s, c);
    if Writing(s.clients[c]) {
      SectionStep(cfg, s, c);
    } else {
      OtherStep(cfg, s, c);
    }
    LeftUpdate(s.clients, c, NextPhase(cfg, s, c));
  }

  lemma DrainUsesWork(s: State)
    requires s.queue != []
    ensures Work(DrainStep(s)) < Work(s)
  {
    hide Left, Acknowledged;
    if Acks(s.queue[0]) && s.queue[0].c < |s.clients| {
      LeftUpdate(s.clients, s.queue[0].c, Acknowledged(s.clients[s.queue[0].c]));
      AcknowledgedLeft(s.clients[s.queue[0].c]);
    }
  }

  lemma StepUsesWork(cfg: Config, s: State, e: Event)
    requires LockInv(cfg, s) && Enabled(cfg, s, e) && (e.Act? || e.Drain?)
    ensures 0 <= Work(Next(cfg, s, e)) < Work(s)
  {
    hide ActStep, DrainStep, Work, LockInv, CanAct;
    if e.Act? {
      ActUsesWork(cfg, s, e.c);
      ActGuards(cfg, s, e.c);
    } else {
      DrainUsesWork(s);
      DrainGuards(cfg, s);
    }
    WorkNotNegative(cfg, Next(cfg, s, e));
  }

  lemma AcknowledgedLeft(p: Phase)
    ensures Left(Acknowledged(p)) <= Left(p)
  {
    hide SectionWork;
  }

  lemma WorkNotNegative(cfg: Config, s: State)
    requires LockInv(cfg, s)
    ensures Work(s) >= 0
  {
    NotNegative(s.clients);
  }

  // ----- so everybody finishes -----

  predicate OldWorkOnly(es: seq<Event>)
  {
    forall i :: 0 <= i < |es| ==> es[i].Act? || es[i].Drain?
  }

  /** With no new request, no schedule takes more than `Work` steps. */
  lemma {:induction false} BoundedWork(cfg: Config, s0: State, es: seq<Event>, more: seq<Event>)
    requires Init(cfg, s0) && Run(cfg, s0, es).Some? && Run(cfg, Run(cfg, s0, es).value, more).Some? && OldWorkOnly(more)
    ensures |more| + Work(Run(cfg, Run(cfg, s0, es).value, more).value) <= Work(Run(cfg, s0, es).value)
    ensures 0 <= Work(Run(cfg, Run(cfg, s0, es).value, more).value)
  {
    hide Init, Work, Enabled, Next, LockInv;
    var s := Run(cfg, s0, es).value;
    if more == [] {
      LocksHold(cfg, s0, es);
      WorkNotNegative(cfg, s);
    } else {
      var front := more[..|more| - 1];
      BoundedWork(cfg, s0, es, front);
      RunAppend(cfg, s0, es, front);
      LocksHold(cfg, s0, es + front);
      StepUsesWork(cfg, Run(cfg, s, front).value, more[|more| - 1]);
    }
  }

  /** Nothing is left that could happen without a new request. */
  predicate Dry(cfg: Config, s: State)
  {
    s.queue == [] && forall c :: 0 <= c < |s.clients| ==> !CanAct(cfg, s, c)
  }

  /** From every reachable state every schedule that keeps going runs dry; here is one. */
  lemma {:induction false} RunsDry(cfg: Config, s0: State, es: seq<Event>) returns (more: seq<Event>)
    requires Init(cfg, s0) && Run(cfg, s0, es).Some?
    ensures OldWorkOnly(more) && |more| <= Work(Run(cfg, s0, es).value)
    ensures Run(cfg, s0, es + more).Some? && Dry(cfg, Run(cfg, s0, es + more).value)
    decreases Work(Run(cfg, s0, es).value)
  {
    hide Init, Work, Next, LockInv, CanAct;
    var s := Run(cfg, s0, es).value;
    LocksHold(cfg, s0, es);
    WorkNotNegative(cfg, s);
    if Dry(cfg, s) {
      assert es + [] == es;
      return [];
    }
    var e: Event;
    if s.queue != [] {
      e := Drain;
    } else {
      var d: nat :| d < |s.clients| && CanAct(cfg, s, d);
      e := Act(d);
    }
    StepUsesWork(cfg, s, e);
    assert (es + [e])[..|es|] == es;
    var rest := RunsDry(cfg, s0, es + [e]);
    more := [e] + rest;
    assert es + more == es + [e] + rest;
  }

  /** However a run comes to the point where nothing more can happen: every client has its answer there
      if and only if no transaction queued SAVE or BGREWRITEAOF. */
  lemma AnsweredIff(cfg: Config, s0: State, es: seq<Event>)
    requires Init(cfg, s0) && Run(cfg, s0, es).Some? && Dry(cfg, Run(cfg, s0, es).value)
    ensures Quiescent(Run(cfg, s0, es).value) <==> forall i :: 0 <= i < |es| ==> !AsksNested(es[i])
  {
    hide Init, Run, CanAct, AsksNested;
    var s := Run(cfg, s0, es).value;
    if !Quiescent(s) && forall i :: 0 <= i < |es| ==> !AsksNested(es[i]) {
      var c :| 0 <= c < |s.clients| && !s.clients[c].Idle?;
      DeadlockFree(cfg, s0, es, c);
      var d: nat :| CanAct(cfg, s, d);
      ActorExists(cfg, s, d);
    }
    if i :| 0 <= i < |es| && AsksNested(es[i]) {
      AskedIsDoomed(cfg, s0, es, i);
      AsksIsBegin(es[i]);
      DoomedBusy(s.clients[es[i].c]);
    }
  }

  lemma ActorExists(cfg: Config, s: State, d: nat)
    requires CanAct(cfg, s, d)
    ensures d < |s.clients|
  {
  }

  lemma AsksIsBegin(e: Event)
    requires AsksNested(e)
    ensures e.Begin?
  {
  }

  /** From every reachable state some schedule of the work already asked for answers every client and
      writes out the queue, if and only if no transaction queued SAVE or BGREWRITEAOF. */
  lemma FinishesIff(cfg: Config, s0: State, es: seq<Event>)
    requires Init(cfg, s0) && Run(cfg, s0, es).Some?
    ensures (exists more :: OldWorkOnly(more) && Run(cfg, s0, es + more).Some? && Quiescent(Run(cfg, s0, es + more).value))
       <==> forall i :: 0 <= i < |es| ==> !AsksNested(es[i])
  {
    hide Init, Run, AsksNested, Work, CanAct, Doomed;
    if more :| OldWorkOnly(more) && Run(cfg, s0, es + more).Some? && Quiescent(Run(cfg, s0, es + more).value) {
      if i :| 0 <= i < |es| && AsksNested(es[i]) {
        assert (es + more)[i] == es[i];
        AskedIsDoomed(cfg, s0, es + more, i);
        AsksIsBegin(es[i]);
        DoomedBusy(Run(cfg, s0, es + more).value.clients[es[i].c]);
      }
    }
    if forall i :: 0 <= i < |es| ==> !AsksNested(es[i]) {
      var more := Finishes(cfg, s0, es);
    }
  }

  /** With no such transaction, within the bound. */
  lemma Finishes(cfg: Config, s0: State, es: seq<Event>) returns (more: seq<Event>)
    requires Init(cfg, s0) && Run(cfg, s0, es).Some? && forall i :: 0 <= i < |es| ==> !AsksNested(es[i])
    ensures OldWorkOnly(more) && |more| <= Work(Run(cfg, s0, es).value)
    ensures Run(cfg, s0, es + more).Some? && Quiescent(Run(cfg, s0, es + more).value)
  {
    hide Init, Run, Work, CanAct, AsksNested, Nests;
    more := RunsDry(cfg, s0, es);
    forall i | 0 <= i < |es + more| ensures !AsksNested((es + more)[i]) {
      if i < |es| {
        assert (es + more)[i] == es[i];
      } else {
        assert (es + more)[i] == more[i - |es|];
        OldIsNoRequest(more[i - |es|]);
      }
    }
    AnsweredIff(cfg, s0, es + more);
  }

  lemma OldIsNoRequest(e: Event)
    requires e.Act? || e.Drain?
    ensures !AsksNested(e)
  {
  }
}
