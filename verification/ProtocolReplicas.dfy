// The PSYNC handoff: what a follower was given, what it is sent, and how the offsets add up.
// crates/server/src/connection.rs:660-689 and replication.rs.
module ProtocolReplicas {
  import opened Bytes
  import opened Frames
  import opened Resp
  import opened Commands
  import opened Grouping
  import opened CrashAtomicity
  import opened Protocol
  import opened ProtocolLocks
  import opened ProtocolQueue
  import opened ProtocolViews

  // ----- offsets -----

  lemma {:induction false} UnsentUpdate(ps: seq<Phase>, c: nat, p: Phase)
    requires c < |ps|
    ensures UnsentTotal(ps[c := p]) == UnsentTotal(ps) - Unsent(ps[c]) + Unsent(p)
  {
    hide Unsent;
    var n := |ps| - 1;
    if c == n {
      assert ps[c := p][..n] == ps[..n];
    } else {
      UnsentUpdate(ps[..n], c, p);
      assert ps[c := p][..n] == ps[..n][c := p];
    }
  }

  /** Header plus stream is the leader's offset, less what is counted but not sent yet, plus an
      error fixed at registration. */
  predicate OffsetOk(s: State, r: Replica)
  {
    r.header + |EncodeAll(r.sent)| + UnsentTotal(s.clients) == s.offset + r.drift
  }

  predicate OffsetInv(s: State)
  {
    forall r :: 0 <= r < |s.replicas| ==> OffsetOk(s, s.replicas[r])
  }

  lemma EncodeSnoc(fs: seq<Frame>, f: Frame)
    ensures |EncodeAll(fs + [f])| == |EncodeAll(fs)| + WireLen(f)
  {
    hide Encode;
    EncodeAllAppend(fs, [f]);
    assert [f][1..] == [];
    assert EncodeAll([f]) == Encode(f, Resp2) + [];
  }

  /** A step moves the offset, its own unsent bytes and the streams together. */
  lemma UnsentStep(cfg: Config, s: State, c: nat)
    requires CanAct(cfg, s, c) && WellFormed(s.clients[c])
    ensures NextOffset(s, s.clients[c]) - s.offset ==
      if s.clients[c].Counting? || s.clients[c].PubCounting? then Unsent(NextPhase(cfg, s, c)) else 0
    ensures Unsent(NextPhase(cfg, s, c)) > 0 ==> s.clients[c].Counting? || s.clients[c].PubCounting?
    ensures Unsent(s.clients[c]) > 0 ==> s.clients[c].Sending? || s.clients[c].PubSending?
  {
    hide Want, Items, CommandOf, Step, WireLen, ShardPart, EncodeAll, MarkerOf;
  }

  lemma SentStep(s: State, c: nat, r: nat)
    requires c < |s.clients| && WellFormed(s.clients[c]) && r < |s.replicas|
    ensures r < |NextReplicas(s, s.clients[c])|
    ensures var q, t := s.replicas[r], NextReplicas(s, s.clients[c])[r];
            && t.header == q.header && t.drift == q.drift && t.blob == q.blob && t.joined == q.joined
            && |EncodeAll(t.sent)| == |EncodeAll(q.sent)| + Unsent(s.clients[c])
            && (Unsent(s.clients[c]) == 0 ==> t == q || s.clients[c].Sending? || s.clients[c].PubSending?)
  {
    hide Items, WireLen, EncodeAll, Log, UnsentTotal, IsPublish;
    var p := s.clients[c];
    if p.Sending? {
      EncodeSnoc(s.replicas[r].sent, FrameAt(p.u, p.pos));
    } else if p.PubSending? {
      EncodeSnoc(s.replicas[r].sent, p.f);
    }
  }

  lemma ActOffsets(cfg: Config, s: State, c: nat)
    requires LockInv(cfg, s) && OffsetInv(s) && CanAct(cfg, s, c)
    ensures OffsetInv(ActStep(cfg, s, c))
  {
    hide LockInv, NextPhase, NextGuards, NextStore, NextQueue, NextOffset, NextSnaps, Overlaps, Unsent, UnsentTotal, EncodeAll, Log;
    var t, p := ActStep(cfg, s, c), s.clients[c];
    EachWellFormed(cfg, s, c);
    UnsentUpdate(s.clients, c, NextPhase(cfg, s, c));
    UnsentStep(cfg, s, c);
    forall r | 0 <= r < |t.replicas| ensures OffsetOk(t, t.replicas[r]) {
      if r < |s.replicas| {
        SentStep(s, c, r);
        assert OffsetOk(s, s.replicas[r]);
      } else {
        assert EncodeAll([]) == [] by { NothingEncoded(); }
      }
    }
  }

  lemma {:induction false} AcknowledgeUnsent(ps: seq<Phase>, c: nat)
    ensures UnsentTotal(Acknowledge(ps, c)) == UnsentTotal(ps)
  {
    if c < |ps| {
      UnsentUpdate(ps, c, Acknowledged(ps[c]));
    }
  }

  lemma {:induction false} OffsetsHold(cfg: Config, s0: State, es: seq<Event>)
    requires Init(cfg, s0) && Run(cfg, s0, es).Some?
    ensures OffsetInv(Run(cfg, s0, es).value)
  {
    hide Init, CanAct, UnsentTotal, EncodeAll, LockInv;
    if es == [] {
      InitNoReplicas(cfg, s0);
    } else {
      OffsetsHold(cfg, s0, es[..|es| - 1]);
      LocksHold(cfg, s0, es[..|es| - 1]);
      var s, e := Run(cfg, s0, es[..|es| - 1]).value, es[|es| - 1];
      match e
      case Act(c) => ActOffsets(cfg, s, c);
      case Drain =>
        if Acks(s.queue[0]) {
          AcknowledgeUnsent(s.clients, s.queue[0].c);
        }
        forall r | 0 <= r < |s.replicas| ensures OffsetOk(Next(cfg, s, e), s.replicas[r]) {
          assert OffsetOk(s, s.replicas[r]);
        }
      case Begin(c, what) =>
        UnsentUpdate(s.clients, c, FirstPhase(what));
        forall r | 0 <= r < |s.replicas| ensures OffsetOk(Next(cfg, s, e), s.replicas[r]) {
          assert OffsetOk(s, s.replicas[r]);
        }
      case Tick =>
        forall r | 0 <= r < |s.replicas| ensures OffsetOk(Next(cfg, s, e), s.replicas[r]) {
          assert OffsetOk(s, s.replicas[r]);
        }
    }
  }

  lemma InitNoReplicas(cfg: Config, s0: State)
    requires Init(cfg, s0)
    ensures s0.replicas == []
  {
  }

  // ----- exactly once, and in order on every shard -----

  /** Appended to the log, not yet sent to the followers. */
  function Behind(p: Phase): (r: seq<Frame>)
  {
    match p
    case Syncing(u, pos) => if pos < |Items(u)| then [FrameAt(u, pos)] else []
    case Counting(u, pos) => if pos < |Items(u)| then [FrameAt(u, pos)] else []
    case Sending(u, pos) => if pos < |Items(u)| then [FrameAt(u, pos)] else []
    case _ => []
  }

  function BehindAll(ps: seq<Phase>): (m: multiset<Frame>)
  {
    if ps == [] then multiset{} else BehindAll(ps[..|ps| - 1]) + multiset(Behind(ps[|ps| - 1]))
  }

  lemma {:induction false} BehindUpdate(ps: seq<Phase>, c: nat, p: Phase)
    requires c < |ps|
    ensures BehindAll(ps[c := p]) + multiset(Behind(ps[c])) == BehindAll(ps) + multiset(Behind(p))
  {
    hide Behind;
    var n := |ps| - 1;
    if c == n {
      assert ps[c := p][..n] == ps[..n];
    } else {
      BehindUpdate(ps[..n], c, p);
      assert ps[c := p][..n] == ps[..n][c := p];
      var l, b, b' := multiset(Behind(ps[n])), multiset(Behind(ps[c])), multiset(Behind(p));
      assert ps[..n][c] == ps[c];
      assert BehindAll(ps[..n][c := p]) + l + b == (BehindAll(ps[..n][c := p]) + b) + l;
      assert BehindAll(ps[..n]) + b' + l == BehindAll(ps[..n]) + l + b';
    }
  }

  /** The frames of a stream that are writes or markers, not published messages. */
  function Writes(fs: seq<Frame>): (r: seq<Frame>)
  {
    if fs == [] then []
    else Writes(fs[..|fs| - 1]) + (if IsPublish(fs[|fs| - 1]) then [] else [fs[|fs| - 1]])
  }

  /** The frames of a stream that touch shard `i`, in order. */
  function Touch(h: Hash, i: nat, fs: seq<Frame>): (r: seq<Frame>)
  {
    if fs == [] then []
    else Touch(h, i, fs[..|fs| - 1]) + (if i in Shards(h, fs[|fs| - 1]) then [fs[|fs| - 1]] else [])
  }

  lemma StreamSnoc(h: Hash, i: nat, fs: seq<Frame>, f: Frame)
    ensures Touch(h, i, fs + [f]) == Touch(h, i, fs) + (if i in Shards(h, f) then [f] else [])
    ensures Writes(fs + [f]) == Writes(fs) + (if IsPublish(f) then [] else [f])
  {
    assert (fs + [f])[..|fs|] == fs;
  }

  /** What the holder of guard `i` still owes the followers on that shard. */
  function Owed(h: Hash, s: State, i: nat): (r: seq<Frame>)
  {
    if i < |s.guards| && s.guards[i].Some? && s.guards[i].value < |s.clients|
    then Touch(h, i, Behind(s.clients[s.guards[i].value])) else []
  }

  ghost predicate HandoffOk(cfg: Config, s: State, r: Replica)
  {
    && r.joined <= |Log(s)|
    && r.blob == Fold(cfg.base, Log(s)[..r.joined])
    && multiset(Log(s)[r.joined..]) == multiset(Writes(r.sent)) + BehindAll(s.clients)
    && forall i :: 0 <= i < SHARD_COUNT ==>
         Touch(cfg.h, i, Log(s)[r.joined..]) == Touch(cfg.h, i, r.sent) + Owed(cfg.h, s, i)
  }

  ghost predicate HandoffInv(cfg: Config, s: State)
  {
    forall r :: 0 <= r < |s.replicas| ==> HandoffOk(cfg, s, s.replicas[r])
  }

  lemma StartBehind(h: Hash, u: Unit, pos: nat)
    ensures Behind(StartItem(h, u, pos)) == []
  {
  }

  /** Only appending puts a client behind, and only sending brings it level. */
  lemma BehindStep(cfg: Config, s: State, c: nat)
    requires CanAct(cfg, s, c) && WellFormed(s.clients[c])
    ensures var p := s.clients[c];
            Behind(NextPhase(cfg, s, c)) ==
              if p.Appending? then Appended(p) else if p.Sending? then [] else Behind(p)
    ensures s.clients[c].Appending? ==> Behind(s.clients[c]) == []
  {
    hide Want, Items, CommandOf, Step, StartItem, EncodeAll, ShardPart;
    var p := s.clients[c];
    if p.Running? || p.Sending? {
      StartBehind(cfg.h, p.u, p.pos + 1);
    } else if p.Locking? && p.job.Write? {
      StartBehind(cfg.h, p.job.u, 0);
    }
  }

  /** The frames client `c`'s step puts on the follower channels. */
  function SentNow(p: Phase): (r: seq<Frame>)
  {
    match p
    case Sending(u, pos) => if pos < |Items(u)| then [FrameAt(u, pos)] else []
    case PubSending(f) => [f]
    case _ => []
  }

  lemma SentNowStep(s: State, c: nat, r: nat)
    requires c < |s.clients| && WellFormed(s.clients[c]) && r < |s.replicas|
    ensures r < |NextReplicas(s, s.clients[c])|
    ensures NextReplicas(s, s.clients[c])[r] == s.replicas[r].(sent := s.replicas[r].sent + SentNow(s.clients[c]))
  {
    hide Items, Log, UnsentTotal, IsPublish;
    assert s.replicas[r].sent + [] == s.replicas[r].sent;
  }

  lemma OwedStep(cfg: Config, s: State, c: nat, i: nat)
    requires LockInv(cfg, s) && CanAct(cfg, s, c) && i < SHARD_COUNT
    ensures Owed(cfg.h, ActStep(cfg, s, c), i)
         == if s.clients[c].Appending? then Owed(cfg.h, s, i) + Touch(cfg.h, i, Appended(s.clients[c]))
            else if s.clients[c].Sending? && i in Shards(cfg.h, FrameAt(s.clients[c].u, s.clients[c].pos)) then []
            else Owed(cfg.h, s, i)
    ensures s.clients[c].Sending? ==> s.clients[c].pos < |Items(s.clients[c].u)|
    ensures s.clients[c].Sending? && i in Shards(cfg.h, FrameAt(s.clients[c].u, s.clients[c].pos)) ==>
      Owed(cfg.h, s, i) == [FrameAt(s.clients[c].u, s.clients[c].pos)]
  {
    hide NextPhase, NextGuards, NextStore, NextQueue, NextReplicas, NextOffset, NextSnaps, Overlaps, Behind, Want, Items, Shards, IsAdmin, Submitted, Touch, LockInv;
    EachWellFormed(cfg, s, c);
    BehindStep(cfg, s, c);
    ActGuards(cfg, s, c);
    var p, t := s.clients[c], ActStep(cfg, s, c);
    NotBehind(p);
    OwnerBehind(cfg, s, t, c, i);
    TouchNothing(cfg.h, i);
    if Writing(p) {
      FrameShards(cfg.h, p.u, p.pos);
      TouchOne(cfg.h, i, FrameAt(p.u, p.pos));
      if i in Shards(cfg.h, FrameAt(p.u, p.pos)) {
        WriterOwns(cfg, s, t, c, i);
      }
    }
  }

  lemma TouchNothing(h: Hash, i: nat)
    ensures Touch(h, i, []) == []
  {
  }

  /** A guard changes hands only with nothing owed under it. */
  lemma OwnerBehind(cfg: Config, s: State, t: State, c: nat, i: nat)
    requires LockInv(cfg, s) && CanAct(cfg, s, c) && t == ActStep(cfg, s, c) && i < SHARD_COUNT && |t.guards| == SHARD_COUNT
    ensures t.guards[i] == s.guards[i] || (Behind(s.clients[c]) == [] && Behind(NextPhase(cfg, s, c)) == []
      && (t.guards[i].Some? ==> t.guards[i] == Some(c)) && (s.guards[i].Some? ==> s.guards[i] == Some(c)))
    ensures s.guards[i].Some? ==> s.guards[i].value < |s.clients|
  {
    hide NextPhase, NextStore, NextQueue, NextReplicas, NextOffset, NextSnaps, Overlaps, Behind, Want, Items, IsAdmin, Submitted;
    EachWellFormed(cfg, s, c);
    BehindStep(cfg, s, c);
    NotBehind(s.clients[c]);
    if s.clients[c].Unlocking? && i in s.clients[c].held && s.clients[c].next == i {
      DropsHeld(cfg.h, s.clients[c], i);
    }
  }

  /** A writer holds the guards of the frame it is at. */
  lemma WriterOwns(cfg: Config, s: State, t: State, c: nat, i: nat)
    requires LockInv(cfg, s) && CanAct(cfg, s, c) && t == ActStep(cfg, s, c) && i < SHARD_COUNT && Writing(s.clients[c])
    requires i in Want(cfg.h, Write(s.clients[c].u))
    ensures s.guards[i] == Some(c) && t.guards == s.guards
  {
    hide NextPhase, NextStore, NextQueue, NextReplicas, NextOffset, NextSnaps, Overlaps, Want, Items;
    assert i in Holds(cfg.h, s.clients[c]);
  }

  lemma NotBehind(p: Phase)
    ensures !p.Syncing? && !p.Counting? && !p.Sending? ==> Behind(p) == []
    ensures p.Sending? && p.pos < |Items(p.u)| ==> Behind(p) == [FrameAt(p.u, p.pos)]
  {
  }

  lemma TouchOne(h: Hash, i: nat, f: Frame)
    ensures Touch(h, i, [f]) == if i in Shards(h, f) then [f] else []
    ensures Touch(h, i, []) == []
  {
    StreamSnoc(h, i, [], f);
    assert [] + [f] == [f];
  }

  /** One follower across one step of another client or its own. */
  lemma HandoffStep(cfg: Config, s: State, c: nat, r: nat)
    requires LockInv(cfg, s) && CanAct(cfg, s, c) && r < |s.replicas| && HandoffOk(cfg, s, s.replicas[r])
    ensures var t := ActStep(cfg, s, c);
            r < |t.replicas| && HandoffOk(cfg, t, t.replicas[r])
  {
    hide LockInv, NextPhase, NextGuards, NextStore, NextQueue, NextReplicas, NextOffset, NextSnaps, Overlaps, Behind, BehindAll, Items,
      Log, Fold, Touch, Writes, Shards, Owed;
    var t, p, q := ActStep(cfg, s, c), s.clients[c], s.replicas[r];
    EachWellFormed(cfg, s, c);
    SentNowStep(s, c, r);
    ActLog(cfg, s, c);
    var q' := t.replicas[r];
    assert Log(t)[..q.joined] == Log(s)[..q.joined];
    assert Log(t)[q.joined..] == Log(s)[q.joined..] + Appended(p);
    MultisetStep(cfg, s, c, r);
    forall i | 0 <= i < SHARD_COUNT
      ensures Touch(cfg.h, i, Log(t)[q.joined..]) == Touch(cfg.h, i, q'.sent) + Owed(cfg.h, t, i)
    {
      OrderStep(cfg, s, c, r, i);
    }
  }

  lemma MultisetStep(cfg: Config, s: State, c: nat, r: nat)
    requires CanAct(cfg, s, c) && WellFormed(s.clients[c]) && r < |s.replicas| && s.replicas[r].joined <= |Log(s)|
    requires multiset(Log(s)[s.replicas[r].joined..]) == multiset(Writes(s.replicas[r].sent)) + BehindAll(s.clients)
    ensures multiset(Log(s)[s.replicas[r].joined..] + Appended(s.clients[c]))
         == multiset(Writes(s.replicas[r].sent + SentNow(s.clients[c]))) + BehindAll(s.clients[c := NextPhase(cfg, s, c)])
  {
    hide NextPhase, Behind, BehindAll, Items, Log, Writes, IsPublish, MarkerOf, WellFormed;
    var p, q := s.clients[c], s.replicas[r];
    var tail, b, b' := Log(s)[q.joined..], BehindAll(s.clients), BehindAll(s.clients[c := NextPhase(cfg, s, c)]);
    BehindStep(cfg, s, c);
    BehindUpdate(s.clients, c, NextPhase(cfg, s, c));
    NotBehind(p);
    SectionPos(p);
    if p.Appending? {
      var f := FrameAt(p.u, p.pos);
      assert b' == b + multiset([f]);
      assert multiset(tail + [f]) == multiset(tail) + multiset([f]);
      assert q.sent + [] == q.sent;
    } else if p.Sending? {
      var f := FrameAt(p.u, p.pos);
      assert b == b' + multiset([f]);
      StreamSnoc(cfg.h, 0, q.sent, f);
      assert multiset(Writes(q.sent) + [f]) == multiset(Writes(q.sent)) + multiset([f]);
      assert tail + [] == tail;
    } else {
      Cancel(b', b, multiset(Behind(p)));
      if p.PubSending? {
        StreamSnoc(cfg.h, 0, q.sent, p.f);
        assert Writes(q.sent) + [] == Writes(q.sent);
      }
      assert q.sent + [] == q.sent && tail + [] == tail;
    }
  }

  lemma SectionPos(p: Phase)
    requires WellFormed(p)
    ensures p.Appending? || p.Sending? ==> p.pos < |Items(p.u)| && !IsPublish(FrameAt(p.u, p.pos))
    ensures p.PubSending? ==> IsPublish(p.f)
  {
    hide Items, IsPublish;
    if p.Appending? || p.Sending? {
      WriteIsNoPublish(p.u, p.pos);
    }
  }

  lemma Cancel(a: multiset<Frame>, b: multiset<Frame>, x: multiset<Frame>)
    requires a + x == b + x
    ensures a == b
  {
    assert a == (a + x) - x && b == (b + x) - x;
  }

  /** A frame a section logs is never a PUBLISH: those are intercepted before any section. */
  lemma WriteIsNoPublish(u: Unit, pos: nat)
    requires InSection(u, pos)
    ensures !IsPublish(FrameAt(u, pos))
  {
    var f := FrameAt(u, pos);
    if f == MULTI_FRAME || f == EXEC_FRAME {
    } else if u.Plain? {
      assert f == CommandsIn(u)[0];
    } else {
      assert f == CommandsIn(u)[if Marked(u) then pos - 1 else pos];
    }
  }

  lemma OrderStep(cfg: Config, s: State, c: nat, r: nat, i: nat)
    requires LockInv(cfg, s) && CanAct(cfg, s, c) && r < |s.replicas| && HandoffOk(cfg, s, s.replicas[r]) && i < SHARD_COUNT
    ensures Touch(cfg.h, i, Log(s)[s.replicas[r].joined..] + Appended(s.clients[c]))
         == Touch(cfg.h, i, s.replicas[r].sent + SentNow(s.clients[c])) + Owed(cfg.h, ActStep(cfg, s, c), i)
  {
    hide LockInv, ActStep, Items, Log, Touch, Writes, Shards, Owed, Fold, BehindAll, IsPublish;
    var p, q := s.clients[c], s.replicas[r];
    var tail := Log(s)[q.joined..];
    EachWellFormed(cfg, s, c);
    OwedStep(cfg, s, c, i);
    assert tail + [] == tail && q.sent + [] == q.sent;
    if p.Appending? {
      StreamSnoc(cfg.h, i, tail, FrameAt(p.u, p.pos));
      TouchOne(cfg.h, i, FrameAt(p.u, p.pos));
    } else if p.Sending? {
      StreamSnoc(cfg.h, i, q.sent, FrameAt(p.u, p.pos));
    } else if p.PubSending? {
      StreamSnoc(cfg.h, i, q.sent, p.f);
      PublishTouchesNothing(cfg.h, p.f);
    }
  }

  lemma PublishTouchesNothing(h: Hash, f: Frame)
    requires IsPublish(f)
    ensures Shards(h, f) == {}
  {
    PublishIsNoCommand(f);
  }

  /** A new follower: the whole log so far is in its keyspace, none of it on its channel. */
  lemma RegisterHandoff(cfg: Config, s: State, c: nat)
    requires StreamInv(cfg, s) && CanAct(cfg, s, c) && s.clients[c].Registering?
    ensures var t := ActStep(cfg, s, c);
            |t.replicas| == |s.replicas| + 1 && HandoffOk(cfg, t, t.replicas[|s.replicas|])
  {
    hide LockInv, QueueInv, WalkInv, ViewInv, Items, Want, NextQueue, NextOffset, NextSnaps, Overlaps, Log, UnsentTotal, Fold;
    var t := ActStep(cfg, s, c);
    ActLog(cfg, s, c);
    assert Log(s) + [] == Log(s);
    WholeKeyspace(cfg, s, c);
    var r := t.replicas[|s.replicas|];
    assert Log(t)[..r.joined] == Log(s) && Log(t)[r.joined..] == [];
    forall d | 0 <= d < |t.clients| ensures Behind(t.clients[d]) == [] {
      if d != c {
        Alone(cfg, s, c, d);
      }
    }
    NobodyBehind(t.clients);
    forall i | 0 <= i < SHARD_COUNT ensures Owed(cfg.h, t, i) == [] {
    }
  }

  lemma {:induction false} NobodyBehind(ps: seq<Phase>)
    requires forall d :: 0 <= d < |ps| ==> Behind(ps[d]) == []
    ensures BehindAll(ps) == multiset{}
  {
    hide Behind;
    if ps != [] {
      NobodyBehind(ps[..|ps| - 1]);
    }
  }

  /** A finished walk under every guard is the keyspace the append order describes. */
  lemma WholeKeyspace(cfg: Config, s: State, c: nat)
    requires StreamInv(cfg, s) && c < |s.clients|
    requires s.clients[c].Registering? || s.clients[c].Rotating? || s.clients[c].RotateWait?
    ensures s.clients[c].img == s.store == LogView(cfg, s)
  {
    hide LogView, ReplicaView, Items, QueueInv;
    assert WalkOk(cfg.h, s.clients[c], s.store);
    assert ClientInSync(cfg.h, s.clients[c], s.store, LogView(cfg, s), true);
    forall k ensures Lookup(s.store, k) == Lookup(LogView(cfg, s), k) {
      assert ShardOf(cfg.h, k) in ALL;
    }
    SameStore(s.store, LogView(cfg, s));
  }

  lemma ActHandoff(cfg: Config, s: State, c: nat)
    requires StreamInv(cfg, s) && HandoffInv(cfg, s) && CanAct(cfg, s, c)
    ensures HandoffInv(cfg, ActStep(cfg, s, c))
  {
    hide LockInv, QueueInv, ViewInv, WalkInv, HandoffOk, NextPhase, NextGuards, NextStore, NextQueue, NextOffset, NextSnaps, Overlaps, Items, Log, UnsentTotal;
    var t := ActStep(cfg, s, c);
    forall r | 0 <= r < |t.replicas| ensures HandoffOk(cfg, t, t.replicas[r]) {
      if r < |s.replicas| {
        HandoffStep(cfg, s, c, r);
      } else {
        RegisterHandoff(cfg, s, c);
      }
    }
  }

  lemma SwapBehind(ps: seq<Phase>, c: nat, p: Phase)
    requires c < |ps| && Behind(p) == Behind(ps[c])
    ensures BehindAll(ps[c := p]) == BehindAll(ps)
  {
    hide Behind, BehindAll;
    BehindUpdate(ps, c, p);
    Cancel(BehindAll(ps[c := p]), BehindAll(ps), multiset(Behind(p)));
  }

  lemma AcknowledgedBehind(ps: seq<Phase>, c: nat)
    ensures BehindAll(Acknowledge(ps, c)) == BehindAll(ps)
    ensures forall d :: 0 <= d < |ps| ==> Behind(Acknowledge(ps, c)[d]) == Behind(ps[d])
  {
    hide BehindAll, Items, Marked, FrameAt;
    if c < |ps| {
      SwapBehind(ps, c, Acknowledged(ps[c]));
    }
  }

  /** Steps that leave the log, the channels and everybody's debts alone. */
  lemma SameHandoff(cfg: Config, s: State, t: State)
    requires HandoffInv(cfg, s) && Log(t) == Log(s) && t.replicas == s.replicas && t.guards == s.guards
    requires |t.clients| == |s.clients| && BehindAll(t.clients) == BehindAll(s.clients)
    requires forall d :: 0 <= d < |s.clients| ==> Behind(t.clients[d]) == Behind(s.clients[d])
    ensures HandoffInv(cfg, t)
  {
    hide Log, Behind, BehindAll, Touch, Writes, Fold;
    forall r | 0 <= r < |t.replicas| ensures HandoffOk(cfg, t, t.replicas[r]) {
      assert HandoffOk(cfg, s, s.replicas[r]);
      forall i | 0 <= i < SHARD_COUNT ensures Owed(cfg.h, t, i) == Owed(cfg.h, s, i) {
      }
    }
  }

  lemma BeginBehind(ps: seq<Phase>, c: nat, what: Start)
    requires c < |ps| && ps[c].Idle?
    ensures BehindAll(ps[c := FirstPhase(what)]) == BehindAll(ps) && Behind(FirstPhase(what)) == Behind(ps[c])
  {
    hide BehindAll;
    SwapBehind(ps, c, FirstPhase(what));
  }

  lemma {:induction false} HandoffHolds(cfg: Config, s0: State, es: seq<Event>)
    requires Init(cfg, s0) && Run(cfg, s0, es).Some?
    ensures HandoffInv(cfg, Run(cfg, s0, es).value)
  {
    hide Init, CanAct, Log, BehindAll, Behind, StreamInv, HandoffOk;
    if es == [] {
      InitNoReplicas(cfg, s0);
    } else {
      HandoffHolds(cfg, s0, es[..|es| - 1]);
      StreamsHold(cfg, s0, es[..|es| - 1]);
      var s, e := Run(cfg, s0, es[..|es| - 1]).value, es[|es| - 1];
      var t := Next(cfg, s, e);
      match e
      case Act(c) => ActHandoff(cfg, s, c);
      case Drain =>
        DrainLog(s);
        if Acks(s.queue[0]) {
          AcknowledgedBehind(s.clients, s.queue[0].c);
        }
        SameHandoff(cfg, s, t);
      case Begin(c, what) =>
        BeginBehind(s.clients, c, what);
        SameLog(s, t);
        SameHandoff(cfg, s, t);
      case Tick =>
        TickLog(s);
        SameHandoff(cfg, s, t);
    }
  }

  // ----- a follower is never left inside a transaction -----

  /** A transaction whose MULTI has been sent and whose EXEC has not. */
  predicate SentOpen(p: Phase) { (Writing(p) || Nesting(p)) && Marked(p.u) && p.pos > 0 }

  ghost predicate OpenInv(s: State)
  {
    forall r :: 0 <= r < |s.replicas| && Lenient(None, s.replicas[r].sent).Some? ==>
      exists c :: 0 <= c < |s.clients| && SentOpen(s.clients[c])
  }

  /** Only a transaction's first and last frames are markers. */
  lemma UnitMarkers(u: Unit, pos: nat)
    requires InSection(u, pos)
    ensures MarkerOf(FrameAt(u, pos)) == MultiMarker <==> Marked(u) && pos == 0
    ensures MarkerOf(FrameAt(u, pos)) == ExecMarker <==> Marked(u) && pos == |Items(u)| - 1
    ensures Marked(u) ==> |Items(u)| >= 2
  {
    hide MarkerOf, NamesWrite, Aborts, Queues, IsPublish, Wire;
    MarkersAreMarkers();
    if Marked(u) && 0 < pos < |Items(u)| - 1 {
      assert FrameAt(u, pos) == u.fs[pos - 1];
    }
  }

  /** A section leaves the open state only by sending its EXEC, which closes the follower's
      buffer, and sending a MULTI makes the section open. */
  lemma OpenStep(cfg: Config, s: State, c: nat)
    requires CanAct(cfg, s, c) && WellFormed(s.clients[c])
    ensures SentOpen(s.clients[c]) && !SentOpen(NextPhase(cfg, s, c)) ==>
      SentNow(s.clients[c]) != [] && MarkerOf(SentNow(s.clients[c])[0]) == ExecMarker
    ensures SentNow(s.clients[c]) != [] && MarkerOf(SentNow(s.clients[c])[0]) == MultiMarker ==> SentOpen(NextPhase(cfg, s, c))
  {
    hide Want, Items, CommandOf, Step, EncodeAll, ShardPart, MarkerOf, IsPublish, Marked, Submitted, Aborts, IsAdmin;
    var p := s.clients[c];
    if Writing(p) {
      UnitMarkers(p.u, p.pos);
      if p.pos + 1 < |Items(p.u)| {
        assert SentOpen(NextPhase(cfg, s, c)) || !Marked(p.u) || !(p.Running? || p.Sending?) ;
      }
    } else if p.PubSending? {
      PublishIsNoCommand(p.f);
    }
  }

  lemma LenientSnoc(fs: seq<Frame>, f: Frame)
    ensures MarkerOf(f) == ExecMarker ==> Lenient(None, fs + [f]).None?
    ensures MarkerOf(f) == NoMarker ==> Lenient(None, fs + [f]).Some? == Lenient(None, fs).Some?
  {
    assert (fs + [f])[..|fs|] == fs;
  }

  lemma ActOpen(cfg: Config, s: State, c: nat)
    requires LockInv(cfg, s) && OpenInv(s) && CanAct(cfg, s, c)
    ensures OpenInv(ActStep(cfg, s, c))
  {
    hide LockInv, NextPhase, NextGuards, NextStore, NextQueue, NextReplicas, NextOffset, NextSnaps, Overlaps, Items, Log, UnsentTotal, MarkerOf, SentOpen, SentNow, Lenient, WellFormed;
    var t, p := ActStep(cfg, s, c), s.clients[c];
    EachWellFormed(cfg, s, c);
    OpenStep(cfg, s, c);
    forall r | 0 <= r < |t.replicas| && Lenient(None, t.replicas[r].sent).Some?
      ensures exists d :: 0 <= d < |t.clients| && SentOpen(t.clients[d])
    {
      if r < |s.replicas| {
        SentNowStep(s, c, r);
        var q := s.replicas[r];
        assert q.sent + [] == q.sent;
        if SentNow(p) != [] {
          OneFrame(p);
          assert SentNow(p) == [SentNow(p)[0]];
          LenientSnoc(q.sent, SentNow(p)[0]);
        }
        if SentNow(p) != [] && MarkerOf(SentNow(p)[0]) == MultiMarker {
          assert SentOpen(t.clients[c]);
        } else {
          var d :| 0 <= d < |s.clients| && SentOpen(s.clients[d]);
          assert SentOpen(t.clients[d]);
        }
      } else {
        NewReplicaEmpty(s, p, r);
        assert Lenient(None, []).None? by { LenientNothing(); }
      }
    }
  }

  lemma OneFrame(p: Phase)
    ensures |SentNow(p)| <= 1
  {
  }

  lemma NewReplicaEmpty(s: State, p: Phase, r: nat)
    requires |s.replicas| <= r < |NextReplicas(s, p)|
    ensures NextReplicas(s, p)[r].sent == []
  {
  }

  lemma LenientNothing()
    ensures Lenient(None, []).None?
  {
  }

  lemma AcknowledgedOpen(ps: seq<Phase>, c: nat, d: nat)
    requires d < |ps|
    ensures SentOpen(Acknowledge(ps, c)[d]) == SentOpen(ps[d])
  {
  }

  lemma {:induction false} OpenHolds(cfg: Config, s0: State, es: seq<Event>)
    requires Init(cfg, s0) && Run(cfg, s0, es).Some?
    ensures OpenInv(Run(cfg, s0, es).value)
  {
    hide Init, CanAct, LockInv, SentOpen;
    if es == [] {
      InitNoReplicas(cfg, s0);
    } else {
      OpenHolds(cfg, s0, es[..|es| - 1]);
      LocksHold(cfg, s0, es[..|es| - 1]);
      var s, e := Run(cfg, s0, es[..|es| - 1]).value, es[|es| - 1];
      var t := Next(cfg, s, e);
      if e.Act? {
        ActOpen(cfg, s, e.c);
      } else {
        forall r | 0 <= r < |t.replicas| && Lenient(None, t.replicas[r].sent).Some?
          ensures exists d :: 0 <= d < |t.clients| && SentOpen(t.clients[d])
        {
          assert t.replicas[r] == s.replicas[r];
          var d :| 0 <= d < |s.clients| && SentOpen(s.clients[d]);
          if e.Drain? && Acks(s.queue[0]) {
            AcknowledgedOpen(s.clients, s.queue[0].c, d);
          } else if e.Begin? {
            IdleNotOpen();
          }
          assert SentOpen(t.clients[d]);
        }
      }
    }
  }

  lemma IdleNotOpen()
    ensures !SentOpen(Idle)
  {
  }

  // ----- what the handoff promises -----

  /** For every follower, in every run, once nobody is in the middle of anything: its keyspace at
      registration was the log up to that point; every later write was sent to it exactly once, and
      on each shard in log order; a follower that applies them through its transaction buffer holds
      the leader's keyspace; and header plus stream differ from the leader's offset by the error
      fixed at registration. */
  lemma PsyncHandoff(cfg: Config, s0: State, es: seq<Event>, r: nat)
    requires Init(cfg, s0) && Run(cfg, s0, es).Some? && Quiescent(Run(cfg, s0, es).value)
    requires r < |Run(cfg, s0, es).value.replicas|
    ensures var s := Run(cfg, s0, es).value;
            var q := s.replicas[r];
            && q.joined <= |Log(s)|
            && q.blob == Fold(cfg.base, Log(s)[..q.joined])
            && multiset(Writes(q.sent)) == multiset(Log(s)[q.joined..])
            && (forall i :: 0 <= i < SHARD_COUNT ==> Touch(cfg.h, i, q.sent) == Touch(cfg.h, i, Log(s)[q.joined..]))
            && Lenient(None, q.sent) == None
            && Fold(q.blob, LenientReleased(None, q.sent)) == s.store
            && q.header + |EncodeAll(q.sent)| == s.offset + q.drift
  {
    hide Init, Run, Log, LogView, Fold, Touch, Writes, Lenient, LenientReleased, EncodeAll, IsPublish, Shards;
    var s := Run(cfg, s0, es).value;
    var q := s.replicas[r];
    HandoffHolds(cfg, s0, es);
    OpenHolds(cfg, s0, es);
    OffsetsHold(cfg, s0, es);
    LocksHold(cfg, s0, es);
    QuietStreams(cfg, s0, es);
    assert HandoffOk(cfg, s, q) && OffsetOk(s, q);
    NobodyBehind(s.clients);
    NobodyUnsent(s.clients);
    forall i | 0 <= i < SHARD_COUNT ensures Owed(cfg.h, s, i) == [] {
    }
    LenientIsFold(q.blob, q.sent);
    FoldNothing(Fold(q.blob, LenientReleased(None, q.sent)));
  }

  lemma {:induction false} NobodyUnsent(ps: seq<Phase>)
    requires forall d :: 0 <= d < |ps| ==> Unsent(ps[d]) == 0
    ensures UnsentTotal(ps) == 0
  {
    hide Unsent;
    if ps != [] {
      NobodyUnsent(ps[..|ps| - 1]);
    }
  }
}
