// What the locks do not order: PUBLISH against PSYNC's header, and transactions on different shards
// against each other. crates/server/src/dispatcher.rs:3499-3599, 3838-3868; connection.rs:660-689.
module ProtocolRaces {
  import opened Bytes
  import opened Frames
  import opened Resp
  import opened Commands
  import opened Grouping
  import opened CrashAtomicity
  import opened Protocol
  import opened ProtocolLocks
  import opened ProtocolQueue
  import opened ProtocolViews
  import opened ProtocolReplicas

  // ----- without PUBLISH the header is exact -----

  predicate OffersPublish(e: Event) { e.Begin? && e.what.StartPublish? }

  predicate HeaderOk(s: State, p: Phase)
  {
    match p
    case Walking(why, _, _) => why.ForPsync? ==> why.off == s.offset
    case Registering(off, _) => off == s.offset
    case PubCounting(_) => false
    case PubSending(_) => false
    case _ => true
  }

  ghost predicate HeaderInv(s: State)
  {
    && (forall c :: 0 <= c < |s.clients| ==> HeaderOk(s, s.clients[c]))
    && (forall r :: 0 <= r < |s.replicas| ==> s.replicas[r].drift == 0)
  }

  lemma HeaderStep(cfg: Config, s: State, c: nat)
    requires LockInv(cfg, s) && HeaderInv(s) && CanAct(cfg, s, c)
    ensures HeaderOk(ActStep(cfg, s, c), NextPhase(cfg, s, c))
    ensures NextOffset(s, s.clients[c]) != s.offset ==> s.clients[c].Counting?
  {
    hide LockInv, Want, Items, CommandOf, Step, ShardPart, WireLen, NextGuards, NextStore, NextQueue, NextReplicas, NextSnaps, Overlaps;
    assert HeaderOk(s, s.clients[c]);
  }

  /** At registration nobody else is inside a section, so nothing is counted and unsent. */
  lemma NothingUnsent(cfg: Config, s: State, c: nat)
    requires LockInv(cfg, s) && HeaderInv(s) && c < |s.clients| && s.clients[c].Registering?
    ensures UnsentTotal(s.clients) == 0
  {
    hide LockInv, Items, WireLen;
    forall d | 0 <= d < |s.clients| ensures Unsent(s.clients[d]) == 0 {
      assert HeaderOk(s, s.clients[d]);
      if d != c {
        Alone(cfg, s, c, d);
      }
    }
    NobodyUnsent(s.clients);
  }

  lemma ActHeader(cfg: Config, s: State, c: nat)
    requires LockInv(cfg, s) && HeaderInv(s) && CanAct(cfg, s, c)
    ensures HeaderInv(ActStep(cfg, s, c))
  {
    hide LockInv, NextPhase, NextGuards, NextStore, NextQueue, NextOffset, NextSnaps, Overlaps, Items, Log;
    var t, p := ActStep(cfg, s, c), s.clients[c];
    HeaderStep(cfg, s, c);
    forall d | 0 <= d < |t.clients| ensures HeaderOk(t, t.clients[d]) {
      assert HeaderOk(s, s.clients[d]);
      if d != c && HoldsAll(s.clients[d]) {
        Alone(cfg, s, d, c);
      }
    }
    forall r | 0 <= r < |t.replicas| ensures t.replicas[r].drift == 0 {
      if r < |s.replicas| {
        assert t.replicas[r].drift == s.replicas[r].drift;
      } else {
        assert HeaderOk(s, p);
        NothingUnsent(cfg, s, c);
      }
    }
  }

  lemma AcknowledgedHeader(s: State, t: State, c: nat, d: nat)
    requires d < |s.clients| && HeaderOk(s, s.clients[d]) && t.offset == s.offset
    ensures HeaderOk(t, Acknowledge(s.clients, c)[d])
  {
  }

  /** In every run in which nobody publishes, every follower's header is exact: PSYNC's header plus
      the streamed bytes is the leader's offset. */
  lemma {:induction false} NoPublishNoDrift(cfg: Config, s0: State, es: seq<Event>)
    requires Init(cfg, s0) && Run(cfg, s0, es).Some? && forall i :: 0 <= i < |es| ==> !OffersPublish(es[i])
    ensures HeaderInv(Run(cfg, s0, es).value)
  {
    hide CanAct, LockInv, HeaderOk, ActStep;
    if es == [] {
      IdleHeader(s0);
    } else {
      NoPublishNoDrift(cfg, s0, es[..|es| - 1]);
      LocksHold(cfg, s0, es[..|es| - 1]);
      var s, e := Run(cfg, s0, es[..|es| - 1]).value, es[|es| - 1];
      var t := Next(cfg, s, e);
      if e.Act? {
        ActHeader(cfg, s, e.c);
      } else {
        forall d | 0 <= d < |t.clients| ensures HeaderOk(t, t.clients[d]) {
          BeginHeader(t);
          AcknowledgedHeader(s, t, if e.Drain? && Acks(s.queue[0]) then s.queue[0].c else |s.clients|, d);
        }
      }
    }
  }

  lemma IdleHeader(s: State)
    ensures HeaderOk(s, Idle)
  {
  }

  lemma BeginHeader(s: State)
    ensures forall what: Start :: !what.StartPublish? ==> HeaderOk(s, FirstPhase(what))
  {
  }

  /** So, at rest, header plus stream is the offset. */
  lemma ExactOffsets(cfg: Config, s0: State, es: seq<Event>, r: nat)
    requires Init(cfg, s0) && Run(cfg, s0, es).Some? && Quiescent(Run(cfg, s0, es).value)
    requires r < |Run(cfg, s0, es).value.replicas| && forall i :: 0 <= i < |es| ==> !OffersPublish(es[i])
    ensures var s := Run(cfg, s0, es).value;
            s.replicas[r].header + |EncodeAll(s.replicas[r].sent)| == s.offset
  {
    hide Init, Run, EncodeAll, Log, Fold, Touch, Writes, Lenient, LenientReleased;
    NoPublishNoDrift(cfg, s0, es);
    PsyncHandoff(cfg, s0, es, r);
  }

  // ----- with PUBLISH -----

  /** Bytes of published frames counted into the offset and not sent yet. */
  function PublishedUnsent(ps: seq<Phase>): (n: nat)
  {
    if ps == [] then 0
    else PublishedUnsent(ps[..|ps| - 1]) + if ps[|ps| - 1].PubSending? then Unsent(ps[|ps| - 1]) else 0
  }

  lemma {:induction false} OnlyPublishers(ps: seq<Phase>)
    requires forall d :: 0 <= d < |ps| ==> Unsent(ps[d]) == 0 || ps[d].PubSending?
    ensures UnsentTotal(ps) == PublishedUnsent(ps)
  {
    hide Unsent;
    if ps != [] {
      OnlyPublishers(ps[..|ps| - 1]);
    }
  }

  /** The exact condition: a follower's header is right for ever if, at the moment it registers, the
      published bytes still to be sent are those counted since the header was read; otherwise it is
      wrong for ever, by the difference. */
  lemma RegistrationDrift(cfg: Config, s0: State, es: seq<Event>, c: nat)
    requires Init(cfg, s0) && Run(cfg, s0, es).Some? && CanAct(cfg, Run(cfg, s0, es).value, c)
    requires Run(cfg, s0, es).value.clients[c].Registering?
    ensures var s := Run(cfg, s0, es).value;
            var t := ActStep(cfg, s, c);
            && |t.replicas| == |s.replicas| + 1
            && t.replicas[|s.replicas|].drift == PublishedUnsent(s.clients) - (s.offset - s.clients[c].off)
  {
    hide Init, Run, NextPhase, NextGuards, NextStore, NextQueue, NextOffset, NextSnaps, Overlaps, Items, Log, LockInv, WireLen;
    LocksHold(cfg, s0, es);
    var s := Run(cfg, s0, es).value;
    forall d | 0 <= d < |s.clients| ensures Unsent(s.clients[d]) == 0 || s.clients[d].PubSending? {
      if d != c {
        Alone(cfg, s, c, d);
      }
    }
    OnlyPublishers(s.clients);
  }

  /** What was fixed at registration stays fixed. */
  predicate SameHandover(q: Replica, r: Replica)
  {
    q.header == r.header && q.drift == r.drift && q.blob == r.blob && q.joined == r.joined
  }

  lemma HandoverStep(cfg: Config, s: State, e: Event, r: nat)
    requires LockInv(cfg, s) && Enabled(cfg, s, e) && r < |s.replicas|
    ensures r < |Next(cfg, s, e).replicas| && SameHandover(Next(cfg, s, e).replicas[r], s.replicas[r])
  {
    hide LockInv, CanAct, NextPhase, NextGuards, NextStore, NextQueue, NextReplicas, NextOffset, NextSnaps, Overlaps, DrainStep;
    if e.Act? {
      ActorIn(cfg, s, e.c);
      EachWellFormed(cfg, s, e.c);
      SentNowStep(s, e.c, r);
    } else if e.Drain? {
      DrainKeeps(s);
    }
  }

  lemma ActorIn(cfg: Config, s: State, c: nat)
    requires CanAct(cfg, s, c)
    ensures c < |s.clients|
  {
  }

  lemma {:induction false} HandoverKept(cfg: Config, s0: State, es: seq<Event>, more: seq<Event>, r: nat)
    requires Init(cfg, s0) && Run(cfg, s0, es).Some? && Run(cfg, s0, es + more).Some? && r < |Run(cfg, s0, es).value.replicas|
    ensures r < |Run(cfg, s0, es + more).value.replicas|
    ensures SameHandover(Run(cfg, s0, es + more).value.replicas[r], Run(cfg, s0, es).value.replicas[r])
    decreases |more|
  {
    hide Init, LockInv, Enabled, Next;
    if more == [] {
      assert es + more == es;
    } else {
      var front, e := more[..|more| - 1], more[|more| - 1];
      assert (es + more)[..|es + more| - 1] == es + front;
      HandoverKept(cfg, s0, es, front, r);
      LocksHold(cfg, s0, es + front);
      HandoverStep(cfg, Run(cfg, s0, es + front).value, e, r);
    }
  }

  /** PSYNC end to end: take any run in which a client registers a follower, and any continuation to
      rest. Header plus everything streamed is then the leader's offset if and only if, at registration,
      the published bytes still to be sent were those counted since the header was read. */
  lemma HeaderRightIff(cfg: Config, s0: State, es: seq<Event>, c: nat, more: seq<Event>)
    requires Init(cfg, s0) && Run(cfg, s0, es).Some? && CanAct(cfg, Run(cfg, s0, es).value, c)
    requires Run(cfg, s0, es).value.clients[c].Registering?
    requires Run(cfg, s0, es + [Act(c)] + more).Some? && Quiescent(Run(cfg, s0, es + [Act(c)] + more).value)
    ensures var s, u := Run(cfg, s0, es).value, Run(cfg, s0, es + [Act(c)] + more).value;
            var r := |s.replicas|;
            && r < |u.replicas| && u.replicas[r].header == s.clients[c].off
            && (u.replicas[r].header + |EncodeAll(u.replicas[r].sent)| == u.offset <==>
                  PublishedUnsent(s.clients) == s.offset - s.clients[c].off)
  {
    hide Init, EncodeAll, Log, Fold, Touch, Writes, Lenient, LenientReleased, PublishedUnsent, ActStep, CanAct;
    var s, all := Run(cfg, s0, es).value, es + [Act(c)] + more;
    var r := |s.replicas|;
    assert (es + [Act(c)])[..|es|] == es;
    assert Run(cfg, s0, es + [Act(c)]) == Some(ActStep(cfg, s, c));
    RegistrationDrift(cfg, s0, es, c);
    RegisteredHeader(cfg, s, c);
    HandoverKept(cfg, s0, es + [Act(c)], more, r);
    PsyncHandoff(cfg, s0, all, r);
  }

  lemma RegisteredHeader(cfg: Config, s: State, c: nat)
    requires CanAct(cfg, s, c) && s.clients[c].Registering?
    ensures |ActStep(cfg, s, c).replicas| == |s.replicas| + 1
    ensures ActStep(cfg, s, c).replicas[|s.replicas|].header == s.clients[c].off
  {
    hide NextPhase, NextGuards, NextStore, NextQueue, NextOffset, NextSnaps, Overlaps, Log, UnsentTotal;
  }
}
