// Transaction markers in the shared log. EXEC locks only its own shards, so markers of
// transactions on different shards can interleave: crates/server/src/dispatcher.rs:3499-3573.
module ProtocolBrackets {
  import opened Bytes
  import opened Frames
  import opened Commands
  import opened Grouping
  import opened CrashAtomicity
  import opened Protocol
  import opened ProtocolLocks
  import opened ProtocolQueue
  import opened ProtocolViews
  import opened ProtocolReplicas

  /** While transactions do not overlap, the log is well bracketed and open exactly while one client
      is inside a transaction. Once two have overlapped, a reader can never get past the point. */
  ghost predicate BracketInv(s: State)
  {
    if s.overlapped then Bracket(None, Log(s)).None?
    else
      && Bracket(None, Log(s)).Some?
      && (Bracket(None, Log(s)).value.Some? <==> exists c :: 0 <= c < |s.clients| && InsideTransaction(s.clients[c]))
      && forall c, d :: 0 <= c < d < |s.clients| ==> !(InsideTransaction(s.clients[c]) && InsideTransaction(s.clients[d]))
  }

  lemma BracketSnoc(fs: seq<Frame>, f: Frame)
    ensures Bracket(None, fs + [f]) ==
      if Bracket(None, fs).None? || Feed(Bracket(None, fs).value, f).Malformed? then None
      else Some(Feed(Bracket(None, fs).value, f).pending)
  {
    assert (fs + [f])[..|fs|] == fs;
  }

  /** A client enters a transaction by appending its MULTI and leaves it by appending its EXEC. */
  lemma InsideStep(cfg: Config, s: State, c: nat)
    requires CanAct(cfg, s, c) && WellFormed(s.clients[c])
    ensures !s.clients[c].Appending? ==> InsideTransaction(NextPhase(cfg, s, c)) == InsideTransaction(s.clients[c])
    ensures s.clients[c].Appending? ==>
      match MarkerOf(FrameAt(s.clients[c].u, s.clients[c].pos))
      case MultiMarker =>
        && Marked(s.clients[c].u) && s.clients[c].pos == 0
        && !InsideTransaction(s.clients[c]) && InsideTransaction(NextPhase(cfg, s, c))
      case ExecMarker => InsideTransaction(s.clients[c]) && !InsideTransaction(NextPhase(cfg, s, c))
      case NoMarker =>
        && !(Marked(s.clients[c].u) && s.clients[c].pos == 0)
        && InsideTransaction(NextPhase(cfg, s, c)) == InsideTransaction(s.clients[c])
  {
    hide Want, Items, CommandOf, Step, EncodeAll, ShardPart, MarkerOf, IsPublish, Marked, Submitted, Aborts, IsAdmin;
    var p := s.clients[c];
    if Writing(p) {
      UnitMarkers(p.u, p.pos);
    }
  }

  lemma ActBrackets(cfg: Config, s: State, c: nat)
    requires LockInv(cfg, s) && BracketInv(s) && CanAct(cfg, s, c)
    ensures BracketInv(ActStep(cfg, s, c))
  {
    hide LockInv, NextPhase, NextGuards, NextStore, NextQueue, NextReplicas, NextOffset, NextSnaps, Items, Log, Bracket, MarkerOf, InsideTransaction, WellFormed;
    var t, p := ActStep(cfg, s, c), s.clients[c];
    EachWellFormed(cfg, s, c);
    InsideStep(cfg, s, c);
    ActLog(cfg, s, c);
    AppendedIs(p);
    assert forall d :: 0 <= d < |s.clients| && d != c ==> t.clients[d] == s.clients[d];
    assert t.clients[c] == NextPhase(cfg, s, c);
    if p.Appending? {
      BracketSnoc(Log(s), FrameAt(p.u, p.pos));
    } else {
      assert Log(s) + [] == Log(s);
    }
  }

  lemma AppendedIs(p: Phase)
    requires WellFormed(p)
    ensures Appended(p) == if p.Appending? then [FrameAt(p.u, p.pos)] else []
    ensures p.Appending? ==> p.pos < |Items(p.u)|
  {
  }

  lemma AcknowledgedInside(ps: seq<Phase>, c: nat, d: nat)
    requires d < |ps|
    ensures InsideTransaction(Acknowledge(ps, c)[d]) == InsideTransaction(ps[d])
  {
  }

  lemma {:induction false} BracketsHold(cfg: Config, s0: State, es: seq<Event>)
    requires Init(cfg, s0) && Run(cfg, s0, es).Some?
    ensures BracketInv(Run(cfg, s0, es).value)
  {
    hide CanAct, LockInv, InsideTransaction, Log, Bracket, BracketInv, ActStep, DrainStep;
    if es == [] {
      InitBrackets(cfg, s0);
    } else {
      BracketsHold(cfg, s0, es[..|es| - 1]);
      LocksHold(cfg, s0, es[..|es| - 1]);
      var s, e := Run(cfg, s0, es[..|es| - 1]).value, es[|es| - 1];
      if e.Act? {
        ActBrackets(cfg, s, e.c);
      } else {
        QuietBrackets(cfg, s, e);
      }
    }
  }

  lemma DrainOverlaps(s: State)
    requires s.queue != []
    ensures DrainStep(s).overlapped == s.overlapped
  {
    hide Acknowledge;
  }

  lemma InitBrackets(cfg: Config, s0: State)
    requires Init(cfg, s0)
    ensures BracketInv(s0)
  {
    hide InsideTransaction, Log, Bracket;
    EmptyQueue(s0);
    IdleNotInside();
  }

  lemma QuietBrackets(cfg: Config, s: State, e: Event)
    requires BracketInv(s) && Enabled(cfg, s, e) && !e.Act?
    ensures BracketInv(Next(cfg, s, e))
  {
    hide CanAct, InsideTransaction, Log, Bracket, ActStep, Acknowledge, DrainStep, FirstPhase, CanStart;
    var t := Next(cfg, s, e);
    if e.Drain? {
      DrainLog(s);
      DrainIs(s);
      DrainOverlaps(s);
    } else if e.Tick? {
      TickLog(s);
    } else {
      SameLog(s, t);
    }
    forall d | 0 <= d < |s.clients| ensures InsideTransaction(t.clients[d]) == InsideTransaction(s.clients[d]) {
      if e.Drain? && Acks(s.queue[0]) {
        AcknowledgedInside(s.clients, s.queue[0].c, d);
      } else if e.Begin? {
        BeginNotInside(e.what);
        IdleNotInside();
      }
    }
  }

  /** The loop's own flushes carry no frame. */
  lemma {:induction false} SyncsCarryNothing(q: seq<Msg>)
    requires OnlySyncs(q)
    ensures Queued(q) == []
  {
    if q != [] {
      SyncsCarryNothing(q[..|q| - 1]);
    }
  }

  lemma EmptyQueue(s: State)
    requires OnlySyncs(s.queue)
    ensures Log(s) == s.hist
  {
    SyncsCarryNothing(s.queue);
  }

  lemma IdleNotInside()
    ensures !InsideTransaction(Idle)
  {
  }

  lemma BeginNotInside(what: Start)
    ensures !InsideTransaction(FirstPhase(what))
  {
  }

  /** In every run, a strict reader gets through the append order exactly when no transaction was
      opened in the log inside another, and then it ends outside every bracket whenever no client
      is inside a transaction. */
  lemma ReadableLogIff(cfg: Config, s0: State, es: seq<Event>)
    requires Init(cfg, s0) && Run(cfg, s0, es).Some?
    ensures var s := Run(cfg, s0, es).value;
            && (Bracket(None, Log(s)).Some? <==> !s.overlapped)
            && (!s.overlapped && (forall c :: 0 <= c < |s.clients| ==> !InsideTransaction(s.clients[c])) ==>
                  Bracket(None, Log(s)) == Some(None))
  {
    hide Run, Init, Log, Bracket, InsideTransaction;
    BracketsHold(cfg, s0, es);
  }

  /** Once two transactions have overlapped in the log, nothing appended later, by anyone, is ever
      reached by a strict reader: it stops where it stopped. */
  lemma {:induction false} OverlapIsForever(cfg: Config, s: State, es: seq<Event>, i: nat)
    requires Run(cfg, s, es).Some? && i <= |Log(s)| && Bracket(None, Log(s)[..i]).None?
    ensures var t := Run(cfg, s, es).value;
            |Log(s)| <= |Log(t)| && Log(t)[..|Log(s)|] == Log(s)
            && forall j :: i <= j <= |Log(t)| ==> Bracket(None, Log(t)[..j]).None?
  {
    hide Log, Bracket, Enabled, Next;
    if es == [] {
      assert Log(s)[..|Log(s)|] == Log(s);
    } else {
      OverlapIsForever(cfg, s, es[..|es| - 1], i);
      var u, e := Run(cfg, s, es[..|es| - 1]).value, es[|es| - 1];
      LogGrows(cfg, u, e);
    }
    StopsThere(Log(s), Log(Run(cfg, s, es).value), i);
  }

  lemma StopsThere(a: seq<Frame>, b: seq<Frame>, i: nat)
    requires |a| <= |b| && b[..|a|] == a && i <= |a| && Bracket(None, a[..i]).None?
    ensures forall j :: i <= j <= |b| ==> Bracket(None, b[..j]).None?
  {
    hide Bracket;
    forall j | i <= j <= |b| ensures Bracket(None, b[..j]).None? {
      assert b[..j] == a[..i] + b[i..j] by {
        assert b[..i] == b[..|a|][..i];
      }
      BracketAppend(None, a[..i], b[i..j]);
    }
  }

  lemma LogGrows(cfg: Config, s: State, e: Event)
    requires Enabled(cfg, s, e)
    ensures var t := Next(cfg, s, e);
            |Log(s)| <= |Log(t)| && Log(t)[..|Log(s)|] == Log(s)
  {
    hide Log, CanAct, ActStep, DrainStep;
    assert Log(s)[..|Log(s)|] == Log(s);
    match e
    case Act(c) => ActLog(cfg, s, c);
    case Drain => DrainLog(s);
    case Tick => TickLog(s);
    case Begin(_, _) => SameLog(s, Next(cfg, s, e));
  }
}
