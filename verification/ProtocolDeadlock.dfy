// Who can be stuck: guards in ascending order, the rewrite lock before them, and a writer thread that
// takes no lock leave nobody waiting, unless a transaction queues SAVE or BGREWRITEAOF. EXEC then asks
// for guards it already holds. crates/server/src/aof.rs:346-400, dispatcher.rs:3395-3460, 3499-3573.
module ProtocolDeadlock {
  import opened Bytes
  import opened Frames
  import opened Commands
  import opened Grouping
  import opened CrashAtomicity
  import opened Protocol
  import opened ProtocolLocks
  import opened ProtocolQueue

  // ----- without a second acquisition somebody can always move -----

  /** With an empty queue only a taken lock can stop a client. */
  lemma BlockedOnLock(cfg: Config, s: State, c: nat)
    requires LockInv(cfg, s) && QueueInv(s) && s.queue == [] && cfg.capacity > 0
    requires c < |s.clients| && !s.clients[c].Idle? && !CanAct(cfg, s, c) && !Nesting(s.clients[c])
    ensures s.clients[c].WaitRewrite? ==> s.rewrite.Some?
    ensures s.clients[c].Locking? ==>
      s.clients[c].next < SHARD_COUNT && s.clients[c].next in Want(cfg.h, s.clients[c].job) && s.guards[s.clients[c].next].Some?
    ensures s.clients[c].WaitRewrite? || s.clients[c].Locking?
  {
    hide Want, Items, Holds, HoldsRewrite;
    assert WaiterOk(s.clients[c], c, s.queue);
    assert WellFormed(s.clients[c]);
  }

  /** A client stopped at guard `i` waits for one that holds `i`: that one can go on, or is itself
      stopped at a higher guard. */
  lemma {:induction false} SomebodyMoves(cfg: Config, s: State, c: nat) returns (d: nat)
    requires LockInv(cfg, s) && QueueInv(s) && s.queue == [] && cfg.capacity > 0
    requires forall d :: 0 <= d < |s.clients| ==> !Nesting(s.clients[d])
    requires c < |s.clients| && s.clients[c].Locking?
    ensures CanAct(cfg, s, d)
    decreases SHARD_COUNT - s.clients[c].next
  {
    hide Want, CanAct;
    if CanAct(cfg, s, c) {
      return c;
    }
    BlockedOnLock(cfg, s, c);
    var i := s.clients[c].next;
    d := s.guards[i].value;
    assert i in Holds(cfg.h, s.clients[d]);
    if !CanAct(cfg, s, d) {
      BlockedOnLock(cfg, s, d);
      d := SomebodyMoves(cfg, s, d);
    }
  }

  lemma RewriteOwner(cfg: Config, s: State)
    requires LockInv(cfg, s) && s.rewrite.Some?
    ensures s.rewrite.value < |s.clients| && !s.clients[s.rewrite.value].Idle? && !s.clients[s.rewrite.value].WaitRewrite?
  {
  }

  /** In every run, whenever some client is unfinished and none is stopped inside a transaction, a client
      or the writer thread can take a step, however small the queue. */
  lemma NobodyNestedMoves(cfg: Config, s0: State, es: seq<Event>, c: nat)
    requires Init(cfg, s0) && Run(cfg, s0, es).Some?
    requires forall d :: 0 <= d < |Run(cfg, s0, es).value.clients| ==> !Nesting(Run(cfg, s0, es).value.clients[d])
    requires c < |Run(cfg, s0, es).value.clients| && !Run(cfg, s0, es).value.clients[c].Idle?
    ensures var s := Run(cfg, s0, es).value;
            s.queue != [] || exists d :: CanAct(cfg, s, d)
  {
    hide CanAct, LockInv, QueueInv, Run;
    var s := Run(cfg, s0, es).value;
    QueueHolds(cfg, s0, es);
    if s.queue == [] && !CanAct(cfg, s, c) {
      BlockedOnLock(cfg, s, c);
      if s.clients[c].Locking? {
        var d := SomebodyMoves(cfg, s, c);
      } else {
        var owner := s.rewrite.value;
        RewriteOwner(cfg, s);
        if !CanAct(cfg, s, owner) {
          BlockedOnLock(cfg, s, owner);
          var d := SomebodyMoves(cfg, s, owner);
        }
      }
    }
  }

  // ----- a queued SAVE or BGREWRITEAOF never returns -----

  /** A transaction that EXEC runs and that queues a second acquisition. */
  predicate Nests(u: Unit)
  {
    !Aborts(u) && exists i :: 0 <= i < |Items(u)| && IsAdmin(Items(u)[i])
  }

  /** The section a phase belongs to. */
  function SectionOf(p: Phase): (u: Option<Unit>)
  {
    match p
    case Locking(job, _) => if job.Write? then Some(job.u) else None
    case Running(u, _, _) => Some(u)
    case Appending(u, _) => Some(u)
    case Syncing(u, _) => Some(u)
    case Counting(u, _) => Some(u)
    case Sending(u, _) => Some(u)
    case NestedWait(u, _) => Some(u)
    case NestedLocking(u, _, _) => Some(u)
    case _ => None
  }

  function PositionOf(p: Phase): (n: nat)
  {
    if Writing(p) || Nesting(p) then p.pos else 0
  }

  /** A section with the second acquisition still ahead of it, or under way. */
  predicate Doomed(p: Phase)
  {
    SectionOf(p).Some? && exists i :: PositionOf(p) <= i < |Items(SectionOf(p).value)| && IsAdmin(Items(SectionOf(p).value)[i])
  }

  lemma StartDoomed(h: Hash, u: Unit, pos: nat, i: nat)
    requires pos <= i < |Items(u)| && IsAdmin(Items(u)[i])
    ensures Doomed(StartItem(h, u, pos)) && SectionOf(StartItem(h, u, pos)) == Some(u)
  {
    hide Items, IsAdmin, MarkerOf, Want;
    var p := StartItem(h, u, pos);
    assert PositionOf(p) == pos && SectionOf(p) == Some(u);
    assert IsAdmin(Items(SectionOf(p).value)[i]);
  }

  /** Whatever such a client does next, it is still there. */
  lemma DoomedStep(cfg: Config, s: State, c: nat)
    requires CanAct(cfg, s, c) && WellFormed(s.clients[c]) && Doomed(s.clients[c])
    ensures Doomed(NextPhase(cfg, s, c))
  {
    hide Items, IsAdmin, MarkerOf, Want, StartItem, Step, CommandOf, Submitted;
    var p := s.clients[c];
    var u := SectionOf(p).value;
    var i :| PositionOf(p) <= i < |Items(u)| && IsAdmin(Items(u)[i]);
    if p.Running? || p.Sending? {
      StartDoomed(cfg.h, u, p.pos + 1, i);
    } else if p.Locking? {
      StartDoomed(cfg.h, u, 0, i);
    }
  }

  lemma AcknowledgedDoomed(p: Phase)
    requires Doomed(p)
    ensures Doomed(Acknowledged(p))
  {
    hide Items, IsAdmin;
  }

  lemma DoomedBusy(p: Phase)
    requires Doomed(p)
    ensures !p.Idle?
  {
  }

  lemma DoomedNext(cfg: Config, s: State, e: Event, c: nat)
    requires LockInv(cfg, s) && Enabled(cfg, s, e) && c < |s.clients| && Doomed(s.clients[c])
    ensures c < |Next(cfg, s, e).clients| && Doomed(Next(cfg, s, e).clients[c])
  {
    hide Doomed, NextPhase, NextGuards, NextStore, NextQueue, NextReplicas, NextOffset, NextSnaps, Overlaps, Acknowledged, DrainStep, LockInv;
    DoomedBusy(s.clients[c]);
    if e.Act? && e.c == c {
      EachWellFormed(cfg, s, c);
      DoomedStep(cfg, s, c);
    } else if e.Drain? {
      DrainKeeps(s);
      AcknowledgedDoomed(s.clients[c]);
    }
  }

  /** In every run, from the moment a client is inside such a transaction, it never gets its answer,
      whatever anybody does. */
  lemma {:induction false} DoomedForever(cfg: Config, s0: State, es: seq<Event>, more: seq<Event>, c: nat)
    requires Init(cfg, s0) && Run(cfg, s0, es).Some? && Run(cfg, s0, es + more).Some?
    requires c < |Run(cfg, s0, es).value.clients| && Doomed(Run(cfg, s0, es).value.clients[c])
    ensures var t := Run(cfg, s0, es + more).value;
            c < |t.clients| && Doomed(t.clients[c]) && !t.clients[c].Idle?
    decreases |more|
  {
    hide Doomed, LockInv, Init, Enabled, Next;
    if more == [] {
      assert es + more == es;
    } else {
      var front, e := more[..|more| - 1], more[|more| - 1];
      assert (es + more)[..|es + more| - 1] == es + front;
      DoomedForever(cfg, s0, es, front, c);
      LocksHold(cfg, s0, es + front);
      DoomedNext(cfg, Run(cfg, s0, es + front).value, e, c);
    }
    DoomedBusy(Run(cfg, s0, es + more).value.clients[c]);
  }

  // ----- exactly those requests -----

  /** A request whose transaction queues SAVE or BGREWRITEAOF. */
  predicate AsksNested(e: Event) { e.Begin? && e.what.StartWrite? && Nests(e.what.u) }

  lemma SectionKept(cfg: Config, s: State, c: nat)
    requires CanAct(cfg, s, c) && WellFormed(s.clients[c])
    ensures SectionOf(NextPhase(cfg, s, c)).Some? ==> SectionOf(NextPhase(cfg, s, c)) == SectionOf(s.clients[c])
  {
    hide Items, IsAdmin, MarkerOf, Want, Step, CommandOf, Submitted, ShardPart;
  }

  /** Where nobody has asked for a nested acquisition, nobody is in one. */
  lemma {:induction false} NobodyNests(cfg: Config, s0: State, es: seq<Event>, c: nat)
    requires Init(cfg, s0) && Run(cfg, s0, es).Some? && forall i :: 0 <= i < |es| ==> !AsksNested(es[i])
    requires c < |Run(cfg, s0, es).value.clients|
    ensures var p := Run(cfg, s0, es).value.clients[c];
            !Nesting(p) && (SectionOf(p).Some? ==> !Nests(SectionOf(p).value))
  {
    hide Nests, CanAct, LockInv, NextPhase, NextGuards, NextStore, NextQueue, NextReplicas, NextOffset, NextSnaps, Overlaps, DrainStep, Acknowledged, SectionOf;
    LocksHold(cfg, s0, es);
    var t := Run(cfg, s0, es).value;
    EachWellFormed(cfg, t, c);
    if es == [] {
      IdleSection();
    } else {
      var s, e := Run(cfg, s0, es[..|es| - 1]).value, es[|es| - 1];
      SameCount(cfg, s, e);
      NobodyNests(cfg, s0, es[..|es| - 1], c);
      LocksHold(cfg, s0, es[..|es| - 1]);
      EachWellFormed(cfg, s, c);
      if e.Act? && e.c == c {
        SectionKept(cfg, s, c);
      } else if e.Drain? {
        DrainKeeps(s);
        AcknowledgedSection(s.clients[c]);
      } else if e.Begin? && e.c == c {
        BeginSection(e.what);
      }
    }
    NestingNests(t.clients[c]);
  }

  lemma IdleSection()
    ensures SectionOf(Idle).None?
  {
  }

  lemma AcknowledgedSection(p: Phase)
    ensures SectionOf(Acknowledged(p)) == SectionOf(p)
  {
  }

  lemma BeginSection(what: Start)
    ensures SectionOf(FirstPhase(what)) == if what.StartWrite? && !Aborts(what.u) then Some(what.u) else None
  {
  }

  lemma NestingNests(p: Phase)
    requires WellFormed(p)
    ensures Nesting(p) ==> SectionOf(p).Some? && Nests(SectionOf(p).value)
  {
    hide Items, Aborts, Submitted;
    if Nesting(p) {
      assert IsAdmin(Items(p.u)[p.pos]);
    }
  }

  lemma SameCount(cfg: Config, s: State, e: Event)
    requires Enabled(cfg, s, e)
    ensures |Next(cfg, s, e).clients| == |s.clients|
  {
    hide NextPhase, NextGuards, NextStore, NextQueue, NextReplicas, NextOffset, NextSnaps, Overlaps, DrainStep;
    if e.Drain? {
      DrainKeeps(s);
    }
  }

  /** Deadlock freedom: in every run in which no transaction queues SAVE or BGREWRITEAOF, whenever some
      client is unfinished, a client or the writer thread can take a step, however small the queue. */
  lemma DeadlockFree(cfg: Config, s0: State, es: seq<Event>, c: nat)
    requires Init(cfg, s0) && Run(cfg, s0, es).Some? && forall i :: 0 <= i < |es| ==> !AsksNested(es[i])
    requires c < |Run(cfg, s0, es).value.clients| && !Run(cfg, s0, es).value.clients[c].Idle?
    ensures var s := Run(cfg, s0, es).value;
            s.queue != [] || exists d :: CanAct(cfg, s, d)
  {
    hide CanAct, Run, Init;
    forall d | 0 <= d < |Run(cfg, s0, es).value.clients| ensures !Nesting(Run(cfg, s0, es).value.clients[d]) {
      NobodyNests(cfg, s0, es, d);
    }
    NobodyNestedMoves(cfg, s0, es, c);
  }

  /** A request that nests leaves its client doomed at once. */
  lemma {:induction false} AskedIsDoomed(cfg: Config, s0: State, es: seq<Event>, i: nat)
    requires Init(cfg, s0) && Run(cfg, s0, es).Some? && i < |es| && AsksNested(es[i])
    ensures var t := Run(cfg, s0, es).value;
            es[i].c < |t.clients| && Doomed(t.clients[es[i].c])
  {
    hide Doomed, Init, CanAct, CanStart, FirstPhase, AsksNested, ActStep, DrainStep;
    RunPrefix(cfg, s0, es, i + 1);
    var front := es[..i + 1];
    assert front[..i] == es[..i] && front[i] == es[i];
    var s := Run(cfg, s0, es[..i]).value;
    NestsIsDoomed(es[i]);
    assert front + es[i + 1..] == es;
    DoomedForever(cfg, s0, front, es[i + 1..], es[i].c);
  }

  lemma NestsIsDoomed(e: Event)
    requires AsksNested(e)
    ensures e.Begin? && Doomed(FirstPhase(e.what))
  {
    hide Items, Aborts;
    var u := e.what.u;
    var i :| 0 <= i < |Items(u)| && IsAdmin(Items(u)[i]);
    assert PositionOf(Locking(Write(u), 0)) == 0 && SectionOf(Locking(Write(u), 0)) == Some(u);
  }

  lemma {:induction false} RunPrefix(cfg: Config, s0: State, es: seq<Event>, n: nat)
    requires Run(cfg, s0, es).Some? && n <= |es|
    ensures Run(cfg, s0, es[..n]).Some?
    decreases |es|
  {
    hide Enabled, Next;
    if n == |es| {
      assert es[..n] == es;
    } else {
      RunPrefix(cfg, s0, es[..|es| - 1], n);
      assert es[..|es| - 1][..n] == es[..n];
    }
  }
}
