// The writer thread's queue: who is waiting for which message.
module ProtocolQueue {
  import opened Bytes
  import opened Frames
  import opened Commands
  import opened Grouping
  import opened CrashAtomicity
  import opened Protocol
  import opened ProtocolLocks

  predicate HoldsAll(p: Phase)
  {
    || p.Flushing? || p.FlushWait? || p.Measuring? || p.Noting? || p.Walking? || p.Rotating?
    || p.RotateWait? || p.Registering? || p == ReadingGen(false)
  }

  /** While one client holds every guard, no other client holds any. */
  lemma Alone(cfg: Config, s: State, c: nat, d: nat)
    requires LockInv(cfg, s) && c < |s.clients| && d < |s.clients| && c != d && HoldsAll(s.clients[c])
    ensures !HoldsAll(s.clients[d]) && !Writing(s.clients[d]) && !Nesting(s.clients[d])
    ensures Holds(cfg.h, s.clients[d]) == {}
  {
    Exclusion(cfg, s, c, d);
    assert 0 in ALL;
    assert Holds(cfg.h, s.clients[d]) * ALL == {};
  }

  predicate OnlySyncs(q: seq<Msg>) { forall i :: 0 <= i < |q| ==> q[i].Sync? }

  /** Behind a client's flush or rotation nothing but the loop's own flushes can come: its sender holds
      every guard. */
  predicate MsgOk(clients: seq<Phase>, q: seq<Msg>, p: nat)
    requires p < |q|
  {
    match q[p]
    case Append(f) => Wire(f)
    case AppendSync(f, c) =>
      && Wire(f) && c < |clients| && clients[c].Syncing?
      && InSection(clients[c].u, clients[c].pos) && f == FrameAt(clients[c].u, clients[c].pos)
      && forall r :: 0 <= r < |q| && r != p && q[r].AppendSync? ==> q[r].c != c
    case Flush(c) => OnlySyncs(q[p + 1..]) && c < |clients| && clients[c].FlushWait?
    case Rotate(gen, c) => OnlySyncs(q[p + 1..]) && c < |clients| && clients[c].RotateWait? && gen == clients[c].gen + 1
    case Sync => true
  }

  /** Every waiting client has its message in the queue. */
  predicate WaiterOk(p: Phase, c: nat, q: seq<Msg>)
  {
    match p
    case Syncing(u, pos) => InSection(u, pos) && AppendSync(FrameAt(u, pos), c) in q
    case FlushWait(_) => Flush(c) in q
    case RotateWait(gen, _) => Rotate(gen + 1, c) in q
    case Measuring(_) => OnlySyncs(q)
    case Walking(why, _, _) => why.ForSave? ==> OnlySyncs(q)
    case _ => true
  }

  ghost predicate QueueInv(s: State)
  {
    && (forall p :: 0 <= p < |s.queue| ==> MsgOk(s.clients, s.queue, p))
    && (forall c :: 0 <= c < |s.clients| ==> WaiterOk(s.clients[c], c, s.queue))
  }

  predicate Sends(p: Phase) { p.Appending? || p.Flushing? || p.Rotating? }

  /** A client about to send finds no flush or rotation in the queue, and nobody relying on the
      queue staying as it is. */
  lemma SenderSeesNoBarrier(cfg: Config, s: State, c: nat)
    requires LockInv(cfg, s) && QueueInv(s) && c < |s.clients| && Sends(s.clients[c])
    ensures forall p :: 0 <= p < |s.queue| ==> !s.queue[p].Flush? && !s.queue[p].Rotate?
    ensures forall d :: 0 <= d < |s.clients| && d != c ==>
      !s.clients[d].FlushWait? && !s.clients[d].RotateWait? && !s.clients[d].Measuring? && !s.clients[d].Walking?
  {
    forall d | 0 <= d < |s.clients| && d != c ensures !HoldsAll(s.clients[d]) {
      if HoldsAll(s.clients[d]) {
        Alone(cfg, s, d, c);
      }
    }
    forall p | 0 <= p < |s.queue| ensures !s.queue[p].Flush? && !s.queue[p].Rotate? {
      assert MsgOk(s.clients, s.queue, p);
    }
  }

  lemma ActQueueSend(cfg: Config, s: State, c: nat)
    requires LockInv(cfg, s) && QueueInv(s) && CanAct(cfg, s, c) && Sends(s.clients[c])
    ensures QueueInv(ActStep(cfg, s, c))
  {
    hide Want, LockInv, Items, NextReplicas, NextOffset, NextSnaps, Overlaps, NextGuards, Wire;
    SenderSeesNoBarrier(cfg, s, c);
    var t := ActStep(cfg, s, c);
    assert WellFormed(s.clients[c]) by { EachWellFormed(cfg, s, c); }
    if s.clients[c].Appending? {
      FrameIsWire(s.clients[c].u, s.clients[c].pos);
    }
    forall r | 0 <= r < |s.queue|
      ensures t.queue[r] == s.queue[r] && (s.queue[r].AppendSync? ==> s.queue[r].c != c)
    {
      assert MsgOk(s.clients, s.queue, r);
    }
    forall p | 0 <= p < |t.queue| ensures MsgOk(t.clients, t.queue, p) {
      if p < |s.queue| {
        assert MsgOk(s.clients, s.queue, p);
      }
    }
    forall d | 0 <= d < |t.clients| ensures WaiterOk(t.clients[d], d, t.queue) {
      assert WaiterOk(s.clients[d], d, s.queue);
      assert t.queue[|t.queue| - 1] in t.queue;
    }
  }

  lemma FrameIsWire(u: Unit, pos: nat)
    requires InSection(u, pos)
    ensures Wire(FrameAt(u, pos))
  {
  }

  /** Steps that do not touch the queue start no wait. */
  lemma QuietPhase(cfg: Config, s: State, c: nat)
    requires CanAct(cfg, s, c) && WellFormed(s.clients[c]) && WaiterOk(s.clients[c], c, s.queue) && !Sends(s.clients[c])
    ensures WaiterOk(NextPhase(cfg, s, c), c, s.queue)
    ensures !s.clients[c].Syncing? && !s.clients[c].FlushWait? && !s.clients[c].RotateWait?
  {
    hide Want, Items, Step, CommandOf, EncodeAll, ShardPart;
  }

  lemma ActQueueQuiet(cfg: Config, s: State, c: nat)
    requires LockInv(cfg, s) && QueueInv(s) && CanAct(cfg, s, c) && !Sends(s.clients[c])
    ensures QueueInv(ActStep(cfg, s, c))
  {
    hide Want, LockInv, Items, NextReplicas, NextOffset, NextSnaps, Overlaps, NextGuards, Wire, NextPhase, NextStore, WaiterOk;
    var t := ActStep(cfg, s, c);
    assert WellFormed(s.clients[c]) by { EachWellFormed(cfg, s, c); }
    QuietPhase(cfg, s, c);
    forall p | 0 <= p < |t.queue| ensures MsgOk(t.clients, t.queue, p) {
      assert MsgOk(s.clients, s.queue, p);
    }
  }

  /** The head message leaves; its sender, if it waits, goes on. */
  lemma TailMessages(clients: seq<Phase>, clients': seq<Phase>, q: seq<Msg>)
    requires q != [] && (forall p :: 0 <= p < |q| ==> MsgOk(clients, q, p))
    requires clients' == if Acks(q[0]) then Acknowledge(clients, q[0].c) else clients
    ensures forall p :: 0 <= p < |q[1..]| ==> MsgOk(clients', q[1..], p)
  {
    hide Items, Wire;
    assert MsgOk(clients, q, 0);
    forall p | 0 <= p < |q[1..]| ensures MsgOk(clients', q[1..], p) {
      assert q[1..][p] == q[p + 1] && MsgOk(clients, q, p + 1);
      assert q[1..][p + 1..] == q[p + 2..];
      if q[p + 1].AppendSync? {
        forall r | 0 <= r < |q[1..]| && r != p && q[1..][r].AppendSync? ensures q[1..][r].c != q[p + 1].c {
          assert q[1..][r] == q[r + 1];
        }
      }
    }
  }

  lemma TailWaiter(clients: seq<Phase>, q: seq<Msg>, d: nat)
    requires q != [] && MsgOk(clients, q, 0) && d < |clients| && WaiterOk(clients[d], d, q)
    ensures !Acks(q[0]) ==> WaiterOk(clients[d], d, q[1..])
    ensures Acks(q[0]) ==> WaiterOk(Acknowledge(clients, q[0].c)[d], d, q[1..])
  {
    hide Items, Wire;
    assert q == [q[0]] + q[1..];
  }

  lemma DrainQueue(cfg: Config, s: State)
    requires QueueInv(s) && s.queue != []
    ensures QueueInv(DrainStep(s))
  {
    hide WaiterOk, MsgOk, Acknowledge, DrainStep;
    var t := DrainStep(s);
    DrainIs(s);
    TailMessages(s.clients, t.clients, s.queue);
    forall d | 0 <= d < |t.clients| ensures WaiterOk(t.clients[d], d, t.queue) {
      TailWaiter(s.clients, s.queue, d);
    }
  }

  lemma DrainIs(s: State)
    requires s.queue != []
    ensures DrainStep(s).queue == s.queue[1..]
    ensures DrainStep(s).clients == if Acks(s.queue[0]) then Acknowledge(s.clients, s.queue[0].c) else s.clients
  {
    hide Acknowledge, Written;
    if s.queue[0].Append? || s.queue[0].AppendSync? {
      WrittenIs(s, s.queue[0].f);
    }
  }

  lemma WrittenIs(s: State, f: Frame)
    requires s.queue != []
    ensures Written(s, f).queue == s.queue[1..] && Written(s, f).clients == s.clients
  {
  }

  lemma {:induction false} QueueHolds(cfg: Config, s0: State, es: seq<Event>)
    requires Init(cfg, s0) && Run(cfg, s0, es).Some?
    ensures LockInv(cfg, Run(cfg, s0, es).value) && QueueInv(Run(cfg, s0, es).value)
  {
    hide LockInv, ActStep, DrainStep, QueueInv, Init;
    LocksHold(cfg, s0, es);
    if es == [] {
      InitQueue(cfg, s0);
    } else {
      QueueHolds(cfg, s0, es[..|es| - 1]);
      var s, e := Run(cfg, s0, es[..|es| - 1]).value, es[|es| - 1];
      match e
      case Begin(c, what) => BeginQueue(cfg, s, c, what);
      case Act(c) =>
        if Sends(s.clients[c]) {
          ActQueueSend(cfg, s, c);
        } else {
          ActQueueQuiet(cfg, s, c);
        }
      case Drain => DrainQueue(cfg, s);
      case Tick => TickQueue(s);
    }
  }

  /** The queue never holds more than its capacity. */
  lemma {:induction false} QueueBounded(cfg: Config, s0: State, es: seq<Event>)
    requires Init(cfg, s0) && Run(cfg, s0, es).Some?
    ensures |Run(cfg, s0, es).value.queue| <= cfg.capacity
  {
    hide ActStep, DrainStep, Init, CanAct;
    if es == [] {
      StartsEmpty(cfg, s0);
    } else {
      QueueBounded(cfg, s0, es[..|es| - 1]);
      var s, e := Run(cfg, s0, es[..|es| - 1]).value, es[|es| - 1];
      if e.Act? {
        ActBounded(cfg, s, e.c);
      } else if e.Drain? {
        DrainIs(s);
      }
    }
  }

  lemma StartsEmpty(cfg: Config, s0: State)
    requires Init(cfg, s0)
    ensures s0.queue == []
  {
  }

  lemma ActBounded(cfg: Config, s: State, c: nat)
    requires CanAct(cfg, s, c) && |s.queue| <= cfg.capacity
    ensures |ActStep(cfg, s, c).queue| <= cfg.capacity
  {
    hide NextPhase, NextGuards, NextStore, NextReplicas, NextOffset, NextSnaps, Overlaps, Want, Items;
  }

  lemma InitQueue(cfg: Config, s0: State)
    requires Init(cfg, s0)
    ensures QueueInv(s0)
  {
  }

  lemma TickQueue(s: State)
    requires QueueInv(s)
    ensures QueueInv(s.(queue := s.queue + [Sync]))
  {
    hide Items, Wire;
    var q := s.queue + [Sync];
    forall p | 0 <= p < |q| ensures MsgOk(s.clients, q, p) {
      if p < |s.queue| {
        assert MsgOk(s.clients, s.queue, p) && q[p] == s.queue[p];
        assert q[p + 1..] == s.queue[p + 1..] + [Sync];
      }
    }
    forall c | 0 <= c < |s.clients| ensures WaiterOk(s.clients[c], c, q) {
      assert WaiterOk(s.clients[c], c, s.queue);
    }
  }

  lemma BeginQueue(cfg: Config, s: State, c: nat, what: Start)
    requires QueueInv(s) && Enabled(cfg, s, Begin(c, what))
    ensures QueueInv(Next(cfg, s, Begin(c, what)))
  {
    hide CanStart;
    var t := Next(cfg, s, Begin(c, what));
    forall p | 0 <= p < |s.queue| ensures MsgOk(t.clients, s.queue, p) {
      assert MsgOk(s.clients, s.queue, p);
    }
  }
}
