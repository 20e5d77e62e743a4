// The keyspace that a stream of frames describes, against the one the shards hold.
// Append order and send order differ from mutation order across shards; what every stream agrees
// on is, shard by shard, what the guards protect.
module ProtocolViews {
  import opened Bytes
  import opened Frames
  import opened Commands
  import opened Grouping
  import opened CrashAtomicity
  import opened Protocol
  import opened ProtocolLocks
  import opened ProtocolQueue

  /** What a client's own shards hold when the stream so far describes `v`: a writer is ahead of
      the stream by the steps it has taken, or by the frame it has not delivered yet. */
  function Expected(p: Phase, forLog: bool, v: Store): (r: Store)
  {
    match p
    case Running(u, pos, x) =>
      if pos < |Items(u)| && CommandOf(FrameAt(u, pos)).Some?
      then After(CommandOf(FrameAt(u, pos)).value, x.pc, v).0 else v
    case Appending(u, pos) => if pos < |Items(u)| then Dispatch(FrameAt(u, pos), v) else v
    case Syncing(u, pos) => if !forLog && pos < |Items(u)| then Dispatch(FrameAt(u, pos), v) else v
    case Counting(u, pos) => if !forLog && pos < |Items(u)| then Dispatch(FrameAt(u, pos), v) else v
    case Sending(u, pos) => if !forLog && pos < |Items(u)| then Dispatch(FrameAt(u, pos), v) else v
    case _ => v
  }

  /** A running command is where it would be had it run alone on `v`. */
  predicate RunOk(p: Phase, v: Store)
  {
    p.Running? && p.pos < |Items(p.u)| && CommandOf(FrameAt(p.u, p.pos)).Some? ==>
      After(CommandOf(FrameAt(p.u, p.pos)).value, p.x.pc, v).1 == Continue(p.x)
  }

  function Free(guards: seq<Option<nat>>): (r: set<nat>)
  {
    set i | i in ALL && i < |guards| && guards[i].None?
  }

  ghost predicate ClientInSync(h: Hash, p: Phase, store: Store, v: Store, forLog: bool)
  {
    Agree(h, Holds(h, p), store, Expected(p, forLog, v)) && RunOk(p, v)
  }

  ghost predicate InSync(h: Hash, s: State, v: Store, forLog: bool)
  {
    && Agree(h, Free(s.guards), s.store, v)
    && forall c :: 0 <= c < |s.clients| ==> ClientInSync(h, s.clients[c], s.store, v, forLog)
  }

  // ----- one client -----

  lemma FrameShards(h: Hash, u: Unit, pos: nat)
    requires pos < |Items(u)|
    ensures Shards(h, FrameAt(u, pos)) <= Want(h, Write(u))
  {
    var fs := Items(u);
    assert Shards(h, fs[pos]) <= UnionShards(h, fs);
  }

  /** Only the client's own shards matter to what it expects. */
  lemma ExpectedLocal(h: Hash, p: Phase, forLog: bool, v: Store, w: Store)
    requires WellFormed(p) && Agree(h, Holds(h, p), v, w)
    ensures Agree(h, Holds(h, p), Expected(p, forLog, v), Expected(p, forLog, w))
    ensures RunOk(p, v) == RunOk(p, w)
  {
    hide Want, Items, Dispatch, CommandOf;
    if Writing(p) {
      FrameShards(h, p.u, p.pos);
      var f := FrameAt(p.u, p.pos);
      if p.Running? && CommandOf(f).Some? {
        AfterLocal(h, f, p.x.pc, Holds(h, p), v, w);
      } else {
        DispatchLocal(h, f, Holds(h, p), v, w);
      }
    }
  }

  /** A client is not disturbed by a store or a stream that changed elsewhere. */
  lemma Undisturbed(h: Hash, p: Phase, store: Store, store': Store, v: Store, v': Store, forLog: bool)
    requires WellFormed(p) && ClientInSync(h, p, store, v, forLog)
    requires Agree(h, Holds(h, p), store, store') && Agree(h, Holds(h, p), v, v')
    ensures ClientInSync(h, p, store', v', forLog)
  {
    hide Holds, Expected, RunOk;
    ExpectedLocal(h, p, forLog, v, v');
  }

  lemma {:induction false} AfterStays(c: Command, n: nat, m: nat, s: Store)
    requires n <= m && !After(c, n, s).1.Continue?
    ensures After(c, m, s) == After(c, n, s)
    decreases m
  {
    hide Step;
    if n < m {
      AfterStays(c, n, m - 1, s);
    }
  }

  /** Wherever a run stops is where `dispatch` ends. */
  lemma StopIsDispatch(f: Frame, n: nat, s: Store)
    requires CommandOf(f).Some? && !After(CommandOf(f).value, n, s).1.Continue?
    ensures After(CommandOf(f).value, n, s).0 == Dispatch(f, s)
    ensures After(CommandOf(f).value, n, s).1.Refused? ==> Dispatch(f, s) == s
  {
    hide CommandOf, After, Apply;
    var c := CommandOf(f).value;
    RunIsApply(f, s);
    if n <= StepCount(c) {
      AfterStays(c, n, StepCount(c), s);
    } else {
      AfterStays(c, StepCount(c), n, s);
    }
  }

  lemma StartInSync(h: Hash, u: Unit, pos: nat, store: Store, v: Store, forLog: bool)
    requires Submitted(u) && !Aborts(u) && Agree(h, Want(h, Write(u)), store, v)
    ensures ClientInSync(h, StartItem(h, u, pos), store, v, forLog)
  {
    hide Want, Items, CommandOf, Dispatch, MarkerOf;
    StartItemHolds(h, u, pos);
    if pos < |Items(u)| && MarkerOf(FrameAt(u, pos)) != NoMarker {
      MarkerDispatch(FrameAt(u, pos), v);
    }
  }

  /** The stream after client `c`'s step. */
  function Delivered(p: Phase, forLog: bool, v: Store): (r: Store)
  {
    match p
    case Appending(u, pos) => if forLog && pos < |Items(u)| then Dispatch(FrameAt(u, pos), v) else v
    case Sending(u, pos) => if !forLog && pos < |Items(u)| then Dispatch(FrameAt(u, pos), v) else v
    case _ => v
  }

  /** A step on the shared store does what the same step would do with nobody else running. */
  lemma StepInSync(h: Hash, f: Frame, x: Exec, held: set<nat>, store: Store, v: Store)
    requires CommandOf(f).Some? && Shards(h, f) <= held && After(CommandOf(f).value, x.pc, v).1 == Continue(x)
    requires Agree(h, held, store, After(CommandOf(f).value, x.pc, v).0)
    ensures var c := CommandOf(f).value;
            var (t, o) := Step(c, x, store);
            && After(c, x.pc + 1, v).1 == o && Agree(h, held, t, After(c, x.pc + 1, v).0)
            && (o.Done? ==> Agree(h, held, t, Dispatch(f, v))) && (o.Refused? ==> Agree(h, held, t, v))
    ensures forall others :: others !! held ==> Agree(h, others, store, Step(CommandOf(f).value, x, store).0)
  {
    hide CommandOf, Step, Dispatch, Shards, Agree;
    var c := CommandOf(f).value;
    var alone := After(c, x.pc, v).0;
    AfterReaches(f, x.pc, v);
    StepLocal(h, f, x, held, store, alone);
    assert After(c, x.pc + 1, v) == Step(c, x, alone);
    if !Step(c, x, alone).1.Continue? {
      StopIsDispatch(f, x.pc + 1, v);
    }
    forall others | others !! held ensures Agree(h, others, store, Step(c, x, store).0) {
      StepFrame(h, f, x, others, store);
    }
  }

  lemma RunningStep(cfg: Config, s: State, c: nat, v: Store, forLog: bool)
    requires CanAct(cfg, s, c) && WellFormed(s.clients[c]) && s.clients[c].Running?
    requires ClientInSync(cfg.h, s.clients[c], s.store, v, forLog)
    ensures ClientInSync(cfg.h, NextPhase(cfg, s, c), NextStore(cfg, s, c), v, forLog)
    ensures forall others :: others !! Holds(cfg.h, s.clients[c]) ==> Agree(cfg.h, others, s.store, NextStore(cfg, s, c))
  {
    hide Want, CommandOf, Step, After, StartItem, Dispatch, Items, Agree, IsAdmin, Submitted, MarkerOf, Shards;
    var Running(u, pos, x) := s.clients[c];
    var f, held := FrameAt(u, pos), Holds(cfg.h, s.clients[c]);
    FrameShards(cfg.h, u, pos);
    if CommandOf(f).None? {
      StartInSync(cfg.h, u, pos + 1, s.store, v, forLog);
      AgreeItself(cfg.h, s.store);
    } else {
      StepInSync(cfg.h, f, x, held, s.store, v);
      if Step(CommandOf(f).value, x, s.store).1.Refused? {
        StartInSync(cfg.h, u, pos + 1, NextStore(cfg, s, c), v, forLog);
      }
    }
  }

  lemma AgreeItself(h: Hash, s: Store)
    ensures forall shards :: Agree(h, shards, s, s)
  {
  }

  lemma WriterStep(cfg: Config, s: State, c: nat, v: Store, forLog: bool)
    requires CanAct(cfg, s, c) && WellFormed(s.clients[c]) && Writing(s.clients[c]) && !s.clients[c].Running?
    requires ClientInSync(cfg.h, s.clients[c], s.store, v, forLog)
    ensures ClientInSync(cfg.h, NextPhase(cfg, s, c), s.store, Delivered(s.clients[c], forLog, v), forLog)
    ensures forall others :: others !! Holds(cfg.h, s.clients[c]) ==> Agree(cfg.h, others, v, Delivered(s.clients[c], forLog, v))
  {
    hide Want, CommandOf, Step, StartItem, Dispatch, Items;
    var p := s.clients[c];
    var f := FrameAt(p.u, p.pos);
    FrameShards(cfg.h, p.u, p.pos);
    if p.Sending? {
      StartInSync(cfg.h, p.u, p.pos + 1, s.store, Delivered(p, forLog, v), forLog);
    }
    forall others | others !! Holds(cfg.h, p) ensures Agree(cfg.h, others, v, Delivered(p, forLog, v)) {
      DispatchFrame(cfg.h, f, others, v);
    }
  }

  // ----- every client -----

  /** A client that is not writing expects exactly the stream. */
  lemma PlainExpected(cfg: Config, s: State, c: nat, v: Store, forLog: bool)
    requires CanAct(cfg, s, c) && WellFormed(s.clients[c]) && !Writing(s.clients[c])
    requires Agree(cfg.h, Holds(cfg.h, NextPhase(cfg, s, c)), s.store, v)
    ensures NextStore(cfg, s, c) == s.store && Delivered(s.clients[c], forLog, v) == v
    ensures ClientInSync(cfg.h, NextPhase(cfg, s, c), s.store, v, forLog)
  {
    hide Want, Items, CommandOf, Dispatch, StartItem, Holds, EncodeAll, ShardPart;
    var p := s.clients[c];
    if p.Locking? && p.next == SHARD_COUNT && p.job.Write? {
      StartItemHolds(cfg.h, p.job.u, 0);
      StartInSync(cfg.h, p.job.u, 0, s.store, v, forLog);
    }
  }

  /** The shards held after a step were held before it or free. */
  lemma PlainHolds(cfg: Config, s: State, c: nat, v: Store, forLog: bool)
    requires LockInv(cfg, s) && CanAct(cfg, s, c) && !Writing(s.clients[c]) && InSync(cfg.h, s, v, forLog)
    ensures Agree(cfg.h, Holds(cfg.h, NextPhase(cfg, s, c)) + Holds(cfg.h, s.clients[c]), s.store, v)
  {
    hide Want, NextPhase, Holds, WellFormed;
    NextHolds(cfg, s, c);
    assert ClientInSync(cfg.h, s.clients[c], s.store, v, forLog);
    assert Expected(s.clients[c], forLog, v) == v;
    forall k | ShardOf(cfg.h, k) in Holds(cfg.h, NextPhase(cfg, s, c)) + Holds(cfg.h, s.clients[c])
      ensures Lookup(s.store, k) == Lookup(v, k)
    {
      var i := ShardOf(cfg.h, k);
      if i !in Holds(cfg.h, s.clients[c]) {
        assert Takes(cfg.h, s.clients[c], i);
        assert i in ALL && i in Free(s.guards);
      }
    }
  }

  /** Client `c` itself, the store and the stream, after its step. */
  lemma OwnStep(cfg: Config, s: State, c: nat, v: Store, forLog: bool)
    requires LockInv(cfg, s) && CanAct(cfg, s, c) && InSync(cfg.h, s, v, forLog)
    ensures ClientInSync(cfg.h, NextPhase(cfg, s, c), NextStore(cfg, s, c), Delivered(s.clients[c], forLog, v), forLog)
    ensures forall others :: others !! Holds(cfg.h, s.clients[c]) ==>
      Agree(cfg.h, others, s.store, NextStore(cfg, s, c)) && Agree(cfg.h, others, v, Delivered(s.clients[c], forLog, v))
  {
    hide Want, NextPhase, Holds, WellFormed, NextStore, Delivered, Expected, RunOk;
    EachWellFormed(cfg, s, c);
    assert ClientInSync(cfg.h, s.clients[c], s.store, v, forLog);
    if s.clients[c].Running? {
      RunningStep(cfg, s, c, v, forLog);
      RunningDelivers(s.clients[c], forLog, v);
    } else if Writing(s.clients[c]) {
      WriterStep(cfg, s, c, v, forLog);
      WriterStore(cfg, s, c);
    } else {
      PlainHolds(cfg, s, c, v, forLog);
      PlainExpected(cfg, s, c, v, forLog);
    }
  }

  lemma RunningDelivers(p: Phase, forLog: bool, v: Store)
    requires p.Running?
    ensures Delivered(p, forLog, v) == v
  {
  }

  lemma WriterStore(cfg: Config, s: State, c: nat)
    requires CanAct(cfg, s, c) && !s.clients[c].Running?
    ensures NextStore(cfg, s, c) == s.store
  {
  }

  /** Every client step keeps the stream in step with the shards. */
  lemma ActInSync(cfg: Config, s: State, c: nat, v: Store, forLog: bool)
    requires LockInv(cfg, s) && CanAct(cfg, s, c) && InSync(cfg.h, s, v, forLog)
    ensures InSync(cfg.h, ActStep(cfg, s, c), Delivered(s.clients[c], forLog, v), forLog)
  {
    hide Want, NextPhase, Holds, WellFormed, NextStore, Delivered, Expected, RunOk, NextQueue, NextReplicas, NextOffset, NextSnaps, Overlaps, LockInv;
    var t, w := ActStep(cfg, s, c), Delivered(s.clients[c], forLog, v);
    OwnStep(cfg, s, c, v, forLog);
    forall d | 0 <= d < |t.clients| ensures ClientInSync(cfg.h, t.clients[d], t.store, w, forLog) {
      if d != c {
        Exclusion(cfg, s, d, c);
        EachWellFormed(cfg, s, d);
        assert ClientInSync(cfg.h, s.clients[d], s.store, v, forLog);
        Undisturbed(cfg.h, s.clients[d], s.store, t.store, v, w, forLog);
      }
    }
    FreeInSync(cfg, s, c, v, forLog);
  }

  lemma FreeInSync(cfg: Config, s: State, c: nat, v: Store, forLog: bool)
    requires LockInv(cfg, s) && CanAct(cfg, s, c) && InSync(cfg.h, s, v, forLog)
    ensures Agree(cfg.h, Free(NextGuards(cfg, s, c)), NextStore(cfg, s, c), Delivered(s.clients[c], forLog, v))
  {
    hide Want, NextPhase, WellFormed, NextStore, Delivered, RunOk;
    OwnStep(cfg, s, c, v, forLog);
    var p, t, w := s.clients[c], NextStore(cfg, s, c), Delivered(s.clients[c], forLog, v);
    forall k | ShardOf(cfg.h, k) in Free(NextGuards(cfg, s, c)) ensures Lookup(t, k) == Lookup(w, k) {
      var i := ShardOf(cfg.h, k);
      if i in Free(s.guards) {
        assert {i} !! Holds(cfg.h, p);
        assert Agree(cfg.h, {i}, s.store, t) && Agree(cfg.h, {i}, v, w);
      } else {
        assert p.Unlocking? && p.next == i && i in p.held;
        PlainHolds(cfg, s, c, v, forLog);
        DropsHeld(cfg.h, p, i);
        assert t == s.store && w == v by { WriterStore(cfg, s, c); UnlockDelivers(p, forLog, v); }
      }
    }
  }

  lemma UnlockDelivers(p: Phase, forLog: bool, v: Store)
    requires p.Unlocking?
    ensures Delivered(p, forLog, v) == v
  {
  }

  // ----- the walk over the shards -----

  /** A partly walked image holds the shards walked so far; a finished one is the keyspace. */
  ghost predicate WalkOk(h: Hash, p: Phase, store: Store)
  {
    match p
    case Walking(_, i, img) =>
      forall k :: Lookup(img, k) == if ShardOf(h, k) < i then Lookup(store, k) else None
    case Rotating(_, img) => img == store
    case RotateWait(_, img) => img == store
    case Registering(_, img) => img == store
    case _ => true
  }

  ghost predicate WalkInv(h: Hash, s: State)
  {
    forall c :: 0 <= c < |s.clients| ==> WalkOk(h, s.clients[c], s.store)
  }

  lemma WalkStep(cfg: Config, s: State, c: nat)
    requires CanAct(cfg, s, c) && WellFormed(s.clients[c]) && WalkOk(cfg.h, s.clients[c], s.store)
    ensures WalkOk(cfg.h, NextPhase(cfg, s, c), NextStore(cfg, s, c))
  {
    hide Want, Items, CommandOf, Step, EncodeAll;
    if s.clients[c].Walking? {
      var Walking(why, i, img) := s.clients[c];
      if i < SHARD_COUNT {
        var part := ShardPart(cfg.h, s.store, i);
        forall k ensures Lookup(img + part, k) == if ShardOf(cfg.h, k) < i + 1 then Lookup(s.store, k) else None {
          assert Lookup(img, k) == if ShardOf(cfg.h, k) < i then Lookup(s.store, k) else None;
        }
      } else {
        SameStore(img, s.store);
      }
    }
  }

  lemma ActWalk(cfg: Config, s: State, c: nat)
    requires LockInv(cfg, s) && CanAct(cfg, s, c) && WalkInv(cfg.h, s)
    ensures WalkInv(cfg.h, ActStep(cfg, s, c))
  {
    hide Want, NextPhase, WellFormed, NextStore, NextQueue, NextReplicas, NextOffset, NextSnaps, Overlaps, NextGuards, LockInv;
    EachWellFormed(cfg, s, c);
    WalkStep(cfg, s, c);
    var t := ActStep(cfg, s, c);
    forall d | 0 <= d < |t.clients| ensures WalkOk(cfg.h, t.clients[d], t.store) {
      if d != c && HoldsAll(s.clients[d]) {
        Alone(cfg, s, d, c);
        WriterStore(cfg, s, c);
      }
    }
  }

  // ----- log and replicas -----

  /** The keyspace that replaying every appended frame, brackets aside, would give. */
  function LogView(cfg: Config, s: State): (v: Store) { Fold(cfg.base, Log(s)) }

  function ReplicaView(r: Replica): (v: Store) { Fold(r.blob, r.sent) }

  ghost predicate ViewInv(cfg: Config, s: State)
  {
    && InSync(cfg.h, s, LogView(cfg, s), true)
    && forall r :: 0 <= r < |s.replicas| ==> InSync(cfg.h, s, ReplicaView(s.replicas[r]), false)
  }

  lemma QueuedSnoc(q: seq<Msg>, m: Msg)
    ensures Queued(q + [m]) == Queued(q) + Payload(m)
  {
    assert (q + [m])[..|q|] == q;
  }

  /** What a client's step appends to the log. */
  function Appended(p: Phase): (r: seq<Frame>)
  {
    if p.Appending? && p.pos < |Items(p.u)| then [FrameAt(p.u, p.pos)] else []
  }

  lemma ActLog(cfg: Config, s: State, c: nat)
    requires CanAct(cfg, s, c)
    ensures Log(ActStep(cfg, s, c)) == Log(s) + Appended(s.clients[c])
  {
    hide Want, NextPhase, NextStore, NextReplicas, NextOffset, NextSnaps, Overlaps, NextGuards, Items, Queued;
    var p := s.clients[c];
    assert Log(s) + [] == Log(s);
    if Sends(p) {
      QueuedSnoc(s.queue, NextQueue(cfg, s, c)[|s.queue|]);
      assert s.hist + (Queued(s.queue) + Appended(p)) == Log(s) + Appended(p);
    }
  }

  lemma ActLogView(cfg: Config, s: State, c: nat)
    requires CanAct(cfg, s, c)
    ensures LogView(cfg, ActStep(cfg, s, c)) == Delivered(s.clients[c], true, LogView(cfg, s))
  {
    hide Log, ActStep, Dispatch, Items, Fold;
    ActLog(cfg, s, c);
    var p := s.clients[c];
    if p.Appending? {
      FoldSnoc(cfg.base, Log(s), FrameAt(p.u, p.pos));
    } else {
      assert Log(s) + [] == Log(s);
    }
  }

  lemma {:induction false} QueuedCons(q: seq<Msg>)
    requires q != []
    ensures Queued(q) == Payload(q[0]) + Queued(q[1..])
  {
    hide Payload;
    if |q| > 1 {
      var mid, last := q[1..|q| - 1], q[|q| - 1];
      QueuedCons(q[..|q| - 1]);
      assert q[..|q| - 1][1..] == mid;
      QueuedSnoc(mid, last);
      assert mid + [last] == q[1..];
      assert Payload(q[0]) + (Queued(mid) + Payload(last)) == Payload(q[0]) + Queued(mid) + Payload(last);
    } else {
      assert q[1..] == [] && q[..0] == [];
      assert [] + Payload(q[0]) == Payload(q[0]) + [];
    }
  }

  lemma DrainLog(s: State)
    requires s.queue != []
    ensures Log(DrainStep(s)) == Log(s)
  {
    hide Acknowledge, Queued;
    QueuedCons(s.queue);
    assert s.hist + (Payload(s.queue[0]) + Queued(s.queue[1..])) == (s.hist + Payload(s.queue[0])) + Queued(s.queue[1..]);
    assert s.hist + [] == s.hist;
  }

  lemma AcknowledgedInSync(h: Hash, p: Phase, store: Store, v: Store, forLog: bool)
    requires WellFormed(p) && ClientInSync(h, p, store, v, forLog)
    ensures ClientInSync(h, Acknowledged(p), store, v, forLog)
  {
    hide Holds, Items, Dispatch, Want;
    AcknowledgedHolds(h, p);
  }

  /** The writer thread changes neither the shards nor the append order. */
  lemma DrainViews(cfg: Config, s: State)
    requires LockInv(cfg, s) && ViewInv(cfg, s) && s.queue != []
    ensures ViewInv(cfg, DrainStep(s))
  {
    hide Log, LockInv, Holds, Items, Want, ClientInSync, Acknowledged, DrainStep;
    DrainKeeps(s);
    DrainLog(s);
    var t := DrainStep(s);
    forall v, forLog | InSync(cfg.h, s, v, forLog) ensures InSync(cfg.h, t, v, forLog) {
      forall d | 0 <= d < |t.clients| ensures ClientInSync(cfg.h, t.clients[d], t.store, v, forLog) {
        EachWellFormed(cfg, s, d);
        assert ClientInSync(cfg.h, s.clients[d], s.store, v, forLog);
        AcknowledgedInSync(cfg.h, s.clients[d], s.store, v, forLog);
      }
    }
  }

  lemma PublishIsNoCommand(f: Frame)
    requires IsPublish(f)
    ensures CommandOf(f).None? && MarkerOf(f) == NoMarker && Shards(h => 0, f) == {}
  {
    assert Args(f).value[0] == f.items[0].data;
  }

  /** A follower's view after client `c`'s step. */
  lemma ReplicaDelivered(s: State, c: nat, r: nat)
    requires c < |s.clients| && WellFormed(s.clients[c]) && r < |s.replicas|
    ensures r < |NextReplicas(s, s.clients[c])|
    ensures ReplicaView(NextReplicas(s, s.clients[c])[r]) == Delivered(s.clients[c], false, ReplicaView(s.replicas[r]))
  {
    hide Dispatch, Items, IsPublish, UnsentTotal, Log;
    var p, was := s.clients[c], s.replicas[r];
    if p.Sending? {
      FoldSnoc(was.blob, was.sent, FrameAt(p.u, p.pos));
    } else if p.PubSending? {
      FoldSnoc(was.blob, was.sent, p.f);
      PublishDispatch(p.f, ReplicaView(was));
    }
  }

  lemma PublishDispatch(f: Frame, v: Store)
    requires IsPublish(f)
    ensures Dispatch(f, v) == v
  {
    PublishIsNoCommand(f);
  }

  /** A newly registered follower starts from the whole keyspace. */
  lemma RegisterInSync(cfg: Config, s: State, c: nat)
    requires LockInv(cfg, s) && CanAct(cfg, s, c) && s.clients[c].Registering? && WalkInv(cfg.h, s)
    ensures InSync(cfg.h, ActStep(cfg, s, c), s.store, false)
  {
    hide LockInv, Items, Want, NextQueue, NextReplicas, NextOffset, NextSnaps, Overlaps;
    var t := ActStep(cfg, s, c);
    forall d | 0 <= d < |t.clients| ensures ClientInSync(cfg.h, t.clients[d], t.store, s.store, false) {
      if d != c {
        Alone(cfg, s, c, d);
      }
    }
  }

  lemma ActViews(cfg: Config, s: State, c: nat)
    requires LockInv(cfg, s) && ViewInv(cfg, s) && WalkInv(cfg.h, s) && CanAct(cfg, s, c)
    ensures ViewInv(cfg, ActStep(cfg, s, c))
  {
    hide Log, LockInv, InSync, Items, Want, NextPhase, NextStore, NextGuards, NextQueue, NextOffset, NextSnaps, Overlaps, Delivered, UnsentTotal;
    var t := ActStep(cfg, s, c);
    ActLogView(cfg, s, c);
    ActInSync(cfg, s, c, LogView(cfg, s), true);
    EachWellFormed(cfg, s, c);
    forall r | 0 <= r < |t.replicas| ensures InSync(cfg.h, t, ReplicaView(t.replicas[r]), false) {
      if r < |s.replicas| {
        ReplicaDelivered(s, c, r);
        ActInSync(cfg, s, c, ReplicaView(s.replicas[r]), false);
      } else {
        RegisterInSync(cfg, s, c);
        assert WalkOk(cfg.h, s.clients[c], s.store);
        assert t.replicas[r].sent == [];
      }
    }
  }

  ghost predicate StreamInv(cfg: Config, s: State)
  {
    LockInv(cfg, s) && QueueInv(s) && ViewInv(cfg, s) && WalkInv(cfg.h, s)
  }

  lemma DrainWalk(h: Hash, s: State)
    requires WalkInv(h, s) && s.queue != []
    ensures WalkInv(h, DrainStep(s))
  {
    hide DrainStep, WalkOk, Acknowledged;
    DrainKeeps(s);
    forall d | 0 <= d < |s.clients| ensures WalkOk(h, Acknowledged(s.clients[d]), s.store) {
      AcknowledgedWalk(h, s.clients[d], s.store);
    }
  }

  lemma AcknowledgedWalk(h: Hash, p: Phase, store: Store)
    requires WalkOk(h, p, store)
    ensures WalkOk(h, Acknowledged(p), store)
  {
  }

  lemma BeginStreams(cfg: Config, s: State, c: nat, what: Start)
    requires StreamInv(cfg, s) && Enabled(cfg, s, Begin(c, what))
    ensures ViewInv(cfg, Next(cfg, s, Begin(c, what))) && WalkInv(cfg.h, Next(cfg, s, Begin(c, what)))
  {
    hide LockInv, QueueInv, Items, Want, Log, ReplicaView;
    var t := Next(cfg, s, Begin(c, what));
    assert Log(t) == Log(s) by { SameLog(s, t); }
    assert Holds(cfg.h, FirstPhase(what)) == {};
    forall v, forLog | InSync(cfg.h, s, v, forLog) ensures InSync(cfg.h, t, v, forLog) {
      forall d | 0 <= d < |t.clients| ensures ClientInSync(cfg.h, t.clients[d], t.store, v, forLog) {
        assert ClientInSync(cfg.h, s.clients[d], s.store, v, forLog);
      }
    }
  }

  lemma SameLog(s: State, t: State)
    requires s.hist == t.hist && s.queue == t.queue
    ensures Log(s) == Log(t)
  {
  }

  lemma TickLog(s: State)
    ensures Log(s.(queue := s.queue + [Sync])) == Log(s)
  {
    hide Queued;
    QueuedSnoc(s.queue, Sync);
    assert Queued(s.queue) + [] == Queued(s.queue);
  }

  lemma TickStreams(cfg: Config, s: State)
    requires StreamInv(cfg, s) && Enabled(cfg, s, Tick)
    ensures ViewInv(cfg, Next(cfg, s, Tick)) && WalkInv(cfg.h, Next(cfg, s, Tick))
  {
    hide LockInv, QueueInv, ClientInSync, Log, ReplicaView, WalkOk;
    var t := Next(cfg, s, Tick);
    TickLog(s);
    forall v, forLog | InSync(cfg.h, s, v, forLog) ensures InSync(cfg.h, t, v, forLog) {
    }
  }

  lemma {:induction false} StreamsHold(cfg: Config, s0: State, es: seq<Event>)
    requires Init(cfg, s0) && Run(cfg, s0, es).Some?
    ensures StreamInv(cfg, Run(cfg, s0, es).value)
  {
    hide LockInv, QueueInv, ViewInv, WalkInv, CanAct, Init;
    QueueHolds(cfg, s0, es);
    if es == [] {
      InitStreams(cfg, s0);
    } else {
      StreamsHold(cfg, s0, es[..|es| - 1]);
      var s, e := Run(cfg, s0, es[..|es| - 1]).value, es[|es| - 1];
      match e
      case Act(c) => ActViews(cfg, s, c); ActWalk(cfg, s, c);
      case Drain => DrainViews(cfg, s); DrainWalk(cfg.h, s);
      case Begin(c, what) => BeginStreams(cfg, s, c, what);
      case Tick => TickStreams(cfg, s);
    }
  }

  lemma InitStreams(cfg: Config, s0: State)
    requires Init(cfg, s0)
    ensures ViewInv(cfg, s0) && WalkInv(cfg.h, s0)
  {
    assert Log(s0) == s0.hist;
  }

  // ----- what the protocol promises -----

  /** In every run and at every moment: on every shard whose guard is free, replaying the append
      order gives what the shard holds, and so does every follower's stream, although the three
      orders differ. */
  lemma FreeShardsAgree(cfg: Config, s0: State, es: seq<Event>, k: Bytes)
    requires Init(cfg, s0) && Run(cfg, s0, es).Some?
    ensures var s := Run(cfg, s0, es).value;
            |s.guards| == SHARD_COUNT && (s.guards[ShardOf(cfg.h, k)].None? ==>
              && Lookup(LogView(cfg, s), k) == Lookup(s.store, k)
              && forall r :: 0 <= r < |s.replicas| ==> Lookup(ReplicaView(s.replicas[r]), k) == Lookup(s.store, k))
  {
    hide Run, Init, LogView, ReplicaView;
    StreamsHold(cfg, s0, es);
    var s := Run(cfg, s0, es).value;
    if s.guards[ShardOf(cfg.h, k)].None? {
      assert ShardOf(cfg.h, k) in ALL;
      assert ShardOf(cfg.h, k) in Free(s.guards);
    }
  }

  /** When no writer is inside a section, the log and every follower describe the leader's whole
      keyspace. */
  lemma QuietStreams(cfg: Config, s0: State, es: seq<Event>)
    requires Init(cfg, s0) && Run(cfg, s0, es).Some?
    requires forall c :: 0 <= c < |Run(cfg, s0, es).value.clients| ==> !Writing(Run(cfg, s0, es).value.clients[c])
    ensures var s := Run(cfg, s0, es).value;
            && LogView(cfg, s) == s.store
            && forall r :: 0 <= r < |s.replicas| ==> ReplicaView(s.replicas[r]) == s.store
  {
    hide Run, Init, LogView, ReplicaView, Items;
    StreamsHold(cfg, s0, es);
    var s := Run(cfg, s0, es).value;
    forall v, forLog | InSync(cfg.h, s, v, forLog) ensures v == s.store {
      forall k ensures Lookup(v, k) == Lookup(s.store, k) {
        var i := ShardOf(cfg.h, k);
        assert i in ALL;
        if s.guards[i].None? {
          assert i in Free(s.guards);
        } else {
          var c := s.guards[i].value;
          assert ClientInSync(cfg.h, s.clients[c], s.store, v, forLog);
          assert Expected(s.clients[c], forLog, v) == v;
        }
      }
      SameStore(v, s.store);
    }
  }
}
