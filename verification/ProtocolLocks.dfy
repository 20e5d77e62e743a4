// Who holds which lock, in every reachable state.
module ProtocolLocks {
  import opened Bytes
  import opened Frames
  import opened Commands
  import opened Grouping
  import opened CrashAtomicity
  import opened Protocol

  /** The ordering guards a phase holds. */
  function Holds(h: Hash, p: Phase): (r: set<nat>)
    ensures r <= ALL
  {
    match p
    case Locking(job, next) => set i | i in Want(h, job) && i < next
    case Running(u, _, _) => Want(h, Write(u))
    case Appending(u, _) => Want(h, Write(u))
    case Syncing(u, _) => Want(h, Write(u))
    case Counting(u, _) => Want(h, Write(u))
    case Sending(u, _) => Want(h, Write(u))
    case NestedWait(u, _) => Want(h, Write(u))
    case NestedLocking(u, _, next) => Want(h, Write(u)) + (set i | i in ALL && i < next)
    case ReadingGen(save) => if save then {} else ALL
    case Flushing(_) => ALL
    case FlushWait(_) => ALL
    case Measuring(_) => ALL
    case Noting => ALL
    case Walking(_, _, _) => ALL
    case Rotating(_, _) => ALL
    case RotateWait(_, _) => ALL
    case Registering(_, _) => ALL
    case Unlocking(held, next, _) => set i | i in held && i in ALL && next <= i
    case _ => {}
  }

  predicate HoldsRewrite(p: Phase)
  {
    match p
    case ReadingGen(_) => true
    case Locking(job, _) => job.SaveAt? || job.Rewrite?
    case Flushing(_) => true
    case FlushWait(_) => true
    case Measuring(_) => true
    case Walking(why, _, _) => !why.ForPsync?
    case Rotating(_, _) => true
    case RotateWait(_, _) => true
    case Unlocking(_, _, fin) => !fin.Quit?
    case Storing(_, _, _) => true
    case Replacing(_, _) => true
    case Committing(_) => true
    case Deleting(_) => true
    case DeletingSnap(_) => true
    case DropRewrite => true
    case NestedLocking(_, _, _) => true
    case _ => false
  }

  predicate InSection(u: Unit, pos: nat)
  {
    Submitted(u) && !Aborts(u) && pos < |Items(u)|
  }

  predicate WellFormed(p: Phase)
  {
    match p
    case Locking(job, next) => next <= SHARD_COUNT && (job.Write? ==> Submitted(job.u) && !Aborts(job.u))
    case Running(u, pos, _) => InSection(u, pos) && MarkerOf(FrameAt(u, pos)) == NoMarker && !IsAdmin(FrameAt(u, pos))
    case Appending(u, pos) => InSection(u, pos) && !IsAdmin(FrameAt(u, pos))
    case Syncing(u, pos) => InSection(u, pos) && !IsAdmin(FrameAt(u, pos))
    case Counting(u, pos) => InSection(u, pos) && !IsAdmin(FrameAt(u, pos))
    case Sending(u, pos) => InSection(u, pos) && !IsAdmin(FrameAt(u, pos))
    case NestedWait(u, pos) => InSection(u, pos) && IsAdmin(FrameAt(u, pos))
    case NestedLocking(u, pos, next) => InSection(u, pos) && IsAdmin(FrameAt(u, pos)) && next <= SHARD_COUNT
    case Walking(_, i, _) => i <= SHARD_COUNT
    case Unlocking(held, next, _) => held <= ALL && next <= SHARD_COUNT
    case PubCounting(f) => IsPublish(f)
    case PubSending(f) => IsPublish(f)
    case _ => true
  }

  ghost predicate GuardInv(h: Hash, clients: seq<Phase>, guards: seq<Option<nat>>)
  {
    && |guards| == SHARD_COUNT
    && (forall c :: 0 <= c < |clients| ==> WellFormed(clients[c]))
    && (forall i :: 0 <= i < SHARD_COUNT && guards[i].Some? ==>
          guards[i].value < |clients| && i in Holds(h, clients[guards[i].value]))
    && (forall c, i :: 0 <= c < |clients| && i in Holds(h, clients[c]) ==> guards[i] == Some(c))
  }

  ghost predicate RewriteInv(clients: seq<Phase>, rewrite: Option<nat>)
  {
    && (rewrite.Some? ==> rewrite.value < |clients| && HoldsRewrite(clients[rewrite.value]))
    && (forall c :: 0 <= c < |clients| && HoldsRewrite(clients[c]) ==> rewrite == Some(c))
  }

  ghost predicate LockInv(cfg: Config, s: State)
  {
    GuardInv(cfg.h, s.clients, s.guards) && RewriteInv(s.clients, s.rewrite)
  }

  /** Mutual exclusion: no two clients ever hold the same guard, nor both the rewrite lock. */
  lemma Exclusion(cfg: Config, s: State, c: nat, d: nat)
    requires LockInv(cfg, s) && c < |s.clients| && d < |s.clients| && c != d
    ensures Holds(cfg.h, s.clients[c]) !! Holds(cfg.h, s.clients[d])
    ensures !(HoldsRewrite(s.clients[c]) && HoldsRewrite(s.clients[d]))
  {
    hide Holds, HoldsRewrite, WellFormed;
    forall i | i in Holds(cfg.h, s.clients[c]) ensures i !in Holds(cfg.h, s.clients[d]) {
      assert s.guards[i] == Some(c);
    }
  }

  // ----- what a step does to what its client holds -----

  predicate Takes(h: Hash, p: Phase, i: nat)
  {
    || (p.Locking? && p.next == i && i < SHARD_COUNT && i in Want(h, p.job))
    || (p.NestedLocking? && p.next == i && i < SHARD_COUNT)
  }

  predicate Drops(p: Phase, i: nat)
  {
    p.Unlocking? && p.next == i && i < SHARD_COUNT && i in p.held
  }

  lemma StartItemHolds(h: Hash, u: Unit, pos: nat)
    requires Submitted(u) && !Aborts(u)
    ensures WellFormed(StartItem(h, u, pos)) && Holds(h, StartItem(h, u, pos)) == Want(h, Write(u))
    ensures !HoldsRewrite(StartItem(h, u, pos))
  {
    hide Want, Submitted, Aborts;
    if pos < |Items(u)| {
      MarkerIsNoAdmin(FrameAt(u, pos));
    }
  }

  lemma MarkerIsNoAdmin(f: Frame)
    ensures IsAdmin(f) ==> MarkerOf(f) == NoMarker && CommandOf(f).None?
  {
    if IsAdmin(f) && Args(f).Some? {
      assert Args(f).value[0] == f.items[0].data;
    }
  }

  predicate AsksRewrite(p: Phase) { p.WaitRewrite? || p.NestedWait? }

  /** Stopped inside a transaction by a second acquisition. */
  predicate Nesting(p: Phase) { p.NestedWait? || p.NestedLocking? }

  predicate Writing(p: Phase) { p.Running? || p.Appending? || p.Syncing? || p.Counting? || p.Sending? }

  lemma WriterNext(cfg: Config, s: State, c: nat)
    requires CanAct(cfg, s, c) && WellFormed(s.clients[c]) && Writing(s.clients[c])
    ensures WellFormed(NextPhase(cfg, s, c)) && !HoldsRewrite(NextPhase(cfg, s, c))
    ensures Holds(cfg.h, NextPhase(cfg, s, c)) == Holds(cfg.h, s.clients[c])
  {
    hide Want, StartItem, Step, CommandOf, Items;
    StartItemHolds(cfg.h, s.clients[c].u, s.clients[c].pos + 1);
  }

  lemma LockerNext(cfg: Config, s: State, c: nat)
    requires CanAct(cfg, s, c) && WellFormed(s.clients[c])
    requires s.clients[c].Locking? || s.clients[c].Unlocking? || s.clients[c].NestedLocking?
    ensures WellFormed(NextPhase(cfg, s, c))
    ensures HoldsRewrite(NextPhase(cfg, s, c)) == HoldsRewrite(s.clients[c])
    ensures forall i :: i in Holds(cfg.h, NextPhase(cfg, s, c)) <==>
      i in ALL && (i in Holds(cfg.h, s.clients[c]) || Takes(cfg.h, s.clients[c], i)) && !Drops(s.clients[c], i)
  {
    hide StartItem, Items, UnionShards;
    var p := s.clients[c];
    if p.Locking? && p.next == SHARD_COUNT {
      if p.job.Write? {
        StartItemHolds(cfg.h, p.job.u, 0);
      }
      assert forall i :: i in Want(cfg.h, p.job) ==> i in ALL;
    }
  }

  lemma OtherNext(cfg: Config, s: State, c: nat)
    requires CanAct(cfg, s, c) && WellFormed(s.clients[c])
    requires !Writing(s.clients[c]) && !s.clients[c].Locking? && !s.clients[c].Unlocking? && !s.clients[c].NestedLocking?
    ensures WellFormed(NextPhase(cfg, s, c))
    ensures Holds(cfg.h, NextPhase(cfg, s, c)) == Holds(cfg.h, s.clients[c])
    ensures HoldsRewrite(NextPhase(cfg, s, c)) ==
      if AsksRewrite(s.clients[c]) then true else if s.clients[c].DropRewrite? then false else HoldsRewrite(s.clients[c])
  {
    hide Want, EncodeAll, ShardPart, StartItem, Items, InSection, IsAdmin, IsPublish, MarkerOf, CommandOf, Step, Submitted, FrameAt;
  }

  lemma NextHolds(cfg: Config, s: State, c: nat)
    requires CanAct(cfg, s, c) && WellFormed(s.clients[c])
    ensures WellFormed(NextPhase(cfg, s, c))
    ensures forall i :: i in Holds(cfg.h, NextPhase(cfg, s, c)) <==>
      i in ALL && (i in Holds(cfg.h, s.clients[c]) || Takes(cfg.h, s.clients[c], i)) && !Drops(s.clients[c], i)
    ensures HoldsRewrite(NextPhase(cfg, s, c)) ==
      if AsksRewrite(s.clients[c]) then true else if s.clients[c].DropRewrite? then false else HoldsRewrite(s.clients[c])
  {
    hide Want, NextPhase;
    if Writing(s.clients[c]) {
      WriterNext(cfg, s, c);
    } else if s.clients[c].Locking? || s.clients[c].Unlocking? || s.clients[c].NestedLocking? {
      LockerNext(cfg, s, c);
    } else {
      OtherNext(cfg, s, c);
    }
  }

  // ----- the invariant holds in every run -----

  lemma ActGuards(cfg: Config, s: State, c: nat)
    requires LockInv(cfg, s) && CanAct(cfg, s, c)
    ensures LockInv(cfg, ActStep(cfg, s, c))
  {
    hide Want, NextPhase, Holds, HoldsRewrite, WellFormed, NextStore, NextQueue, NextReplicas, NextOffset, NextSnaps, Overlaps;
    NextHolds(cfg, s, c);
    var t, p := ActStep(cfg, s, c), s.clients[c];
    forall i | 0 <= i < SHARD_COUNT
      ensures t.guards[i] == if Takes(cfg.h, p, i) then Some(c) else if Drops(p, i) then None else s.guards[i]
      ensures Takes(cfg.h, p, i) ==> s.guards[i].None?
      ensures Drops(p, i) ==> s.guards[i] == Some(c)
    {
      if Drops(p, i) {
        assert i in Holds(cfg.h, p) by { DropsHeld(cfg.h, p, i); }
      }
    }
    forall i | 0 <= i < SHARD_COUNT && t.guards[i].Some?
      ensures t.guards[i].value < |t.clients| && i in Holds(cfg.h, t.clients[t.guards[i].value])
    {
      assert i in ALL;
    }
    forall d, i | 0 <= d < |t.clients| && i in Holds(cfg.h, t.clients[d]) ensures t.guards[i] == Some(d) {
      assert i in ALL;
      if d != c {
        assert s.guards[i] == Some(d);
      }
    }
    assert p.DropRewrite? ==> s.rewrite == Some(c) by { DropHoldsRewrite(); }
    assert RewriteInv(t.clients, t.rewrite);
  }

  lemma DropHoldsRewrite()
    ensures HoldsRewrite(DropRewrite)
  {
  }

  lemma DropsHeld(h: Hash, p: Phase, i: nat)
    requires Drops(p, i)
    ensures i in Holds(h, p)
  {
    assert i in ALL;
  }

  /** Phases that hold the same locks can stand in for each other. */
  lemma SameLocks(cfg: Config, s: State, t: State)
    requires LockInv(cfg, s) && |t.clients| == |s.clients| && t.guards == s.guards && t.rewrite == s.rewrite
    requires forall c :: 0 <= c < |s.clients| ==>
      && WellFormed(t.clients[c]) && Holds(cfg.h, t.clients[c]) == Holds(cfg.h, s.clients[c])
      && HoldsRewrite(t.clients[c]) == HoldsRewrite(s.clients[c])
    ensures LockInv(cfg, t)
  {
    hide Want, Holds, HoldsRewrite, WellFormed;
  }

  lemma AcknowledgedHolds(h: Hash, p: Phase)
    requires WellFormed(p)
    ensures WellFormed(Acknowledged(p)) && Holds(h, Acknowledged(p)) == Holds(h, p)
    ensures HoldsRewrite(Acknowledged(p)) == HoldsRewrite(p)
  {
    hide Want, Items;
    assert forall i :: i in ALL ==> 0 <= i;
  }

  /** The writer thread touches no lock, no shard and no follower, and at most wakes one client. */
  lemma DrainKeeps(s: State)
    requires s.queue != []
    ensures var t := DrainStep(s);
            && t.guards == s.guards && t.rewrite == s.rewrite && t.store == s.store && t.replicas == s.replicas
            && t.offset == s.offset && t.overlapped == s.overlapped && |t.clients| == |s.clients|
            && forall d :: 0 <= d < |s.clients| ==> t.clients[d] == s.clients[d] || t.clients[d] == Acknowledged(s.clients[d])
  {
    hide Acknowledged, Written, ActiveLen;
    match s.queue[0]
    case Append(f) => WrittenKeeps(s, f);
    case AppendSync(f, c) => WrittenKeeps(s, f);
    case Flush(c) =>
    case Rotate(gen, c) =>
    case Sync =>
  }

  lemma WrittenKeeps(s: State, f: Frame)
    ensures var t := Written(s, f);
            && t.guards == s.guards && t.rewrite == s.rewrite && t.store == s.store && t.replicas == s.replicas
            && t.offset == s.offset && t.overlapped == s.overlapped && t.clients == s.clients
  {
  }

  lemma DrainGuards(cfg: Config, s: State)
    requires LockInv(cfg, s) && s.queue != []
    ensures LockInv(cfg, DrainStep(s))
  {
    hide Want, Holds, HoldsRewrite, WellFormed, Acknowledged, LockInv, DrainStep;
    DrainKeeps(s);
    var t := DrainStep(s);
    forall c | 0 <= c < |s.clients|
      ensures WellFormed(t.clients[c]) && Holds(cfg.h, t.clients[c]) == Holds(cfg.h, s.clients[c])
      ensures HoldsRewrite(t.clients[c]) == HoldsRewrite(s.clients[c])
    {
      assert WellFormed(s.clients[c]) by { EachWellFormed(cfg, s, c); }
      AcknowledgedHolds(cfg.h, s.clients[c]);
    }
    SameLocks(cfg, s, t);
  }

  lemma EachWellFormed(cfg: Config, s: State, c: nat)
    requires LockInv(cfg, s) && c < |s.clients|
    ensures WellFormed(s.clients[c])
  {
  }

  lemma BeginGuards(cfg: Config, s: State, c: nat, what: Start)
    requires LockInv(cfg, s) && Enabled(cfg, s, Begin(c, what))
    ensures LockInv(cfg, Next(cfg, s, Begin(c, what)))
  {
    hide Want, Holds, HoldsRewrite, WellFormed, FirstPhase;
    BeginHolds(cfg.h, what);
  }

  /** A request that has just come in holds nothing, and neither does an idle client. */
  lemma BeginHolds(h: Hash, what: Start)
    requires CanStart(what)
    ensures WellFormed(FirstPhase(what)) && Holds(h, FirstPhase(what)) == {} && !HoldsRewrite(FirstPhase(what))
    ensures Holds(h, Idle) == {} && !HoldsRewrite(Idle)
  {
    hide Want, Submitted, Aborts, IsPublish;
  }

  lemma {:induction false} LocksHold(cfg: Config, s0: State, es: seq<Event>)
    requires Init(cfg, s0) && Run(cfg, s0, es).Some?
    ensures LockInv(cfg, Run(cfg, s0, es).value)
  {
    if es != [] {
      LocksHold(cfg, s0, es[..|es| - 1]);
      var s, e := Run(cfg, s0, es[..|es| - 1]).value, es[|es| - 1];
      match e
      case Begin(c, what) => BeginGuards(cfg, s, c, what);
      case Act(c) => ActGuards(cfg, s, c);
      case Drain => DrainGuards(cfg, s);
      case Tick => SameLocks(cfg, s, Next(cfg, s, e));
    }
  }
}
