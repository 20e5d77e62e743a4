// Which transactions can open inside each other in the log: those without a common shard.
// crates/server/src/dispatcher.rs:3532-3550.
module ProtocolOverlap {
  import opened Bytes
  import opened Frames
  import opened Names
  import opened Commands
  import opened Grouping
  import opened CrashAtomicity
  import opened Protocol
  import opened ProtocolLocks
  import opened ProtocolDeadlock
  import opened ProtocolReplicas
  import opened ProtocolSchedules

  predicate Asks(e: Event, u: Unit) { e.Begin? && e.what == StartWrite(u) }

  /** A transaction that EXEC runs and that is logged between markers. */
  predicate Logs(u: Unit) { Submitted(u) && !Aborts(u) && Marked(u) }

  /** Every section under way was asked for in the run. */
  lemma {:induction false} SectionAsked(cfg: Config, s0: State, es: seq<Event>, c: nat)
    requires Init(cfg, s0) && Run(cfg, s0, es).Some? && c < |Run(cfg, s0, es).value.clients|
    requires SectionOf(Run(cfg, s0, es).value.clients[c]).Some?
    ensures exists i :: 0 <= i < |es| && Asks(es[i], SectionOf(Run(cfg, s0, es).value.clients[c]).value)
  {
    hide CanAct, LockInv, NextPhase, NextGuards, NextStore, NextQueue, NextReplicas, NextOffset, NextSnaps, Overlaps, DrainStep, Acknowledged, SectionOf;
    IdleSection();
    if es != [] {
      var front, e := es[..|es| - 1], es[|es| - 1];
      var s, u := Run(cfg, s0, front).value, SectionOf(Run(cfg, s0, es).value.clients[c]).value;
      LocksHold(cfg, s0, front);
      SameCount(cfg, s, e);
      EachWellFormed(cfg, s, c);
      if e.Act? && e.c == c {
        SectionKept(cfg, s, c);
      } else if e.Drain? {
        DrainKeeps(s);
        AcknowledgedSection(s.clients[c]);
      } else if e.Begin? && e.c == c {
        BeginSection(e.what);
        assert Asks(es[|es| - 1], u);
        return;
      }
      SectionAsked(cfg, s0, front, c);
      var i :| 0 <= i < |front| && Asks(front[i], u);
      assert Asks(es[i], u);
    }
  }

  /** Any two logged transactions of the run have a shard in common. */
  ghost predicate Shares(h: Hash, es: seq<Event>)
  {
    forall i, j, u, w :: 0 <= i < |es| && 0 <= j < |es| && Asks(es[i], u) && Asks(es[j], w) && Logs(u) && Logs(w) ==>
      Want(h, Write(u)) * Want(h, Write(w)) != {}
  }

  lemma InsideHolds(h: Hash, p: Phase)
    requires WellFormed(p) && (InsideTransaction(p) || (p.Appending? && Marked(p.u)))
    ensures SectionOf(p).Some? && Logs(SectionOf(p).value) && Want(h, Write(SectionOf(p).value)) <= Holds(h, p)
  {
    hide Items, Want, Marked, Submitted, Aborts;
  }

  /** Transactions that share a shard with each other never open inside one another. */
  lemma {:induction false} SharedNeverOverlap(cfg: Config, s0: State, es: seq<Event>)
    requires Init(cfg, s0) && Run(cfg, s0, es).Some? && Shares(cfg.h, es)
    ensures !Run(cfg, s0, es).value.overlapped
  {
    hide CanAct, LockInv, Shares, Marked, Logs, Want, NextPhase, NextGuards, NextStore, NextQueue, NextReplicas, NextOffset, NextSnaps, DrainStep;
    if es != [] {
      var front, e := es[..|es| - 1], es[|es| - 1];
      SharesPrefix(cfg.h, es);
      SharedNeverOverlap(cfg, s0, front);
      var s := Run(cfg, s0, front).value;
      if e.Drain? {
        DrainKeeps(s);
      } else if e.Act? && Overlaps(s, e.c) {
        var d :| 0 <= d < |s.clients| && d != e.c && InsideTransaction(s.clients[d]);
        LocksHold(cfg, s0, front);
        EachWellFormed(cfg, s, e.c);
        EachWellFormed(cfg, s, d);
        InsideHolds(cfg.h, s.clients[e.c]);
        InsideHolds(cfg.h, s.clients[d]);
        Exclusion(cfg, s, e.c, d);
        SectionAsked(cfg, s0, front, e.c);
        SectionAsked(cfg, s0, front, d);
        var u, w := SectionOf(s.clients[e.c]).value, SectionOf(s.clients[d]).value;
        var i :| 0 <= i < |front| && Asks(front[i], u);
        var j :| 0 <= j < |front| && Asks(front[j], w);
        SharesPair(cfg.h, front, i, j, u, w);
      }
    }
  }

  lemma SharesPrefix(h: Hash, es: seq<Event>)
    requires Shares(h, es) && es != []
    ensures Shares(h, es[..|es| - 1])
  {
    hide Want, Logs;
    var front := es[..|es| - 1];
    forall i, j, u, w | 0 <= i < |front| && 0 <= j < |front| && Asks(front[i], u) && Asks(front[j], w) && Logs(u) && Logs(w)
      ensures Want(h, Write(u)) * Want(h, Write(w)) != {}
    {
      assert Asks(es[i], u) && Asks(es[j], w);
    }
  }

  lemma SharesPair(h: Hash, es: seq<Event>, i: nat, j: nat, u: Unit, w: Unit)
    requires Shares(h, es) && i < |es| && j < |es| && Asks(es[i], u) && Asks(es[j], w) && Logs(u) && Logs(w)
    ensures Want(h, Write(u)) * Want(h, Write(w)) != {}
  {
    hide Want, Logs;
  }

  /** Which shards those are: a guard is taken exactly when some queued frame names a key there, whether
      it writes, only reads, or has the wrong number of arguments; with no key at all, every guard is. */
  lemma WantIff(h: Hash, fs: seq<Frame>, i: nat)
    requires i < SHARD_COUNT && Marked(Transaction(fs))
    ensures i in Want(h, Write(Transaction(fs))) <==>
      (exists n :: 0 <= n < |fs| && i in GuardShards(h, fs[n])) || (forall n :: 0 <= n < |fs| ==> NamedKeys(fs[n]) == [])
  {
    hide NamedKeys, Marked, NamesWrite;
    var all := [MULTI_FRAME] + fs + [EXEC_FRAME];
    MarkerKeys();
    UnionIff(h, all, i);
    forall n | 0 <= n < |fs| ensures all[n + 1] == fs[n] {
    }
    forall n | 0 <= n < |all| ensures n == 0 || n == |all| - 1 || all[n] == fs[n - 1] {
    }
    assert all[|all| - 1] == EXEC_FRAME;
    NothingNamed(h, all);
  }

  lemma {:induction false} UnionIff(h: Hash, fs: seq<Frame>, i: nat)
    ensures i in UnionShards(h, fs) <==> exists n :: 0 <= n < |fs| && i in GuardShards(h, fs[n])
  {
    hide GuardShards;
    if fs != [] {
      UnionIff(h, fs[1..], i);
      if n :| 0 <= n < |fs[1..]| && i in GuardShards(h, fs[1..][n]) {
        assert fs[n + 1] == fs[1..][n];
      }
      if n :| 0 <= n < |fs| && i in GuardShards(h, fs[n]) {
        assert n == 0 || fs[1..][n - 1] == fs[n];
      }
    }
  }

  lemma {:induction false} NothingNamed(h: Hash, fs: seq<Frame>)
    ensures UnionShards(h, fs) == {} <==> forall n :: 0 <= n < |fs| ==> NamedKeys(fs[n]) == []
  {
    hide NamedKeys;
    if fs != [] {
      NothingNamed(h, fs[1..]);
      if NamedKeys(fs[0]) != [] {
        assert ShardOf(h, NamedKeys(fs[0])[0]) in GuardShards(h, fs[0]);
      }
      forall n | 0 <= n < |fs| ensures n == 0 || fs[n] == fs[1..][n - 1] {
      }
    }
  }

  // ----- and any two without one can -----

  lemma MarkedStart(h: Hash, u: Unit)
    requires Logs(u)
    ensures StartItem(h, u, 0) == Appending(u, 0) && |Items(u)| >= 2 && InsideTransaction(Counting(u, 0))
  {
    hide Want, MarkerOf, NamesWrite, Aborts;
    MarkersAreMarkers();
  }

  /** Both begin, both take their guards, both write their MULTI. */
  lemma DisjointCanOverlap(cfg: Config, u: Unit, w: Unit) returns (es: seq<Event>)
    requires cfg.base == map[] && cfg.capacity > 0 && Logs(u) && Logs(w)
    requires Want(cfg.h, Write(u)) !! Want(cfg.h, Write(w))
    ensures Init(cfg, Fresh(2, map[])) && Run(cfg, Fresh(2, map[]), es).Some?
    ensures var s := Run(cfg, Fresh(2, map[]), es).value;
            s.overlapped && s.clients == [Counting(u, 0), Counting(w, 0)]
  {
    hide Run, Reaches, Want, Items, Marked, Submitted, Aborts, InsideTransaction;
    var s0 := Fresh(2, map[]);
    FreshIsInit(cfg, 2, map[]);
    MarkedStart(cfg.h, u);
    MarkedStart(cfg.h, w);
    var s4 := BothEnter(cfg, u, w);
    var s5 := WriteItem(cfg, s4, 0, u, 0);
    Chain(cfg, s0, s4, s5);
    var s6 := WriteItem(cfg, s5, 1, w, 0);
    Chain(cfg, s0, s5, s6);
    assert s5.clients == [Counting(u, 0), Appending(w, 0)];
    assert InsideTransaction(s5.clients[0]);
    assert Overlaps(s5, 1);
    es := RunTo(cfg, s0, s6);
  }

  lemma BothEnter(cfg: Config, u: Unit, w: Unit) returns (s4: State)
    requires Logs(u) && Logs(w) && Want(cfg.h, Write(u)) !! Want(cfg.h, Write(w))
    ensures Reaches(cfg, Fresh(2, map[]), s4) && |s4.guards| == SHARD_COUNT
    ensures s4 == Fresh(2, map[]).(clients := [Appending(u, 0), Appending(w, 0)], guards := s4.guards)
  {
    hide Run, Reaches, Want, Items, StartItem, Marked, Submitted, Aborts, Taken, InsideTransaction;
    var s0 := Fresh(2, map[]);
    MarkedStart(cfg.h, u);
    MarkedStart(cfg.h, w);
    BeginWrite(cfg, s0, 0, u);
    var s1 := s0.(clients := s0.clients[0 := Locking(Write(u), 0)]);
    LockAll(cfg, s1, 0, Write(u), 0);
    var s2 := With(s1, 0, Appending(u, 0), Taken(s1.guards, Want(cfg.h, Write(u)), 0, 0));
    Chain(cfg, s0, s1, s2);
    BeginWrite(cfg, s2, 1, w);
    var s3 := s2.(clients := s2.clients[1 := Locking(Write(w), 0)]);
    Chain(cfg, s0, s2, s3);
    StillFree(s1.guards, Want(cfg.h, Write(u)), Want(cfg.h, Write(w)), 0);
    LockAll(cfg, s3, 1, Write(w), 0);
    s4 := With(s3, 1, Appending(w, 0), Taken(s3.guards, Want(cfg.h, Write(w)), 1, 0));
    Chain(cfg, s0, s3, s4);
    assert s4.clients == [Appending(u, 0), Appending(w, 0)];
  }

  lemma RunTo(cfg: Config, s: State, t: State) returns (es: seq<Event>)
    requires Reaches(cfg, s, t)
    ensures Run(cfg, s, es) == Some(t)
  {
    es :| Run(cfg, s, es) == Some(t);
  }

  lemma StillFree(g: seq<Option<nat>>, want: set<nat>, other: set<nat>, c: nat)
    requires |g| == SHARD_COUNT && want !! other && forall j :: 0 <= j < |g| ==> g[j].None?
    ensures forall j :: 0 <= j < SHARD_COUNT && j in other ==> Taken(g, want, c, 0)[j].None?
  {
  }

  // ----- what decides it: the keys a name gives a frame -----

  const GET: Bytes := [71, 69, 84]

  /** Names that the next two lemmas use. */
  lemma GetAndSet()
    ensures Text(GET) == "GET" && Text(SET) == "SET" && UpperName(GET) == Some(GET) && UpperName(SET) == Some(SET)
    ensures KeySpecOf("GET") == FirstArg && KeySpecOf("SET") == FirstArg && WriteName("SET") && !WriteName("GET")
  {
    assert UpperName(GET).value == GET && UpperName(SET).value == SET;
  }

  lemma RequestKeys(name: Bytes, args: seq<Bytes>)
    requires name == GET || name == SET
    ensures NameOf(Request(name, args)) == Some(if name == GET then "GET" else "SET")
    ensures NamedKeys(Request(name, args)) == if args == [] then [] else [args[0]]
  {
    hide KeySpecOf;
    GetAndSet();
    var f := Request(name, args);
    BulkDataOf(f.items[1..], args);
    if args != [] {
      assert args[..1] == [args[0]];
    }
  }

  /** A SET with too few or too many arguments takes the guard of its key like any other, and is a write
      by name: beside a SET of a key in another shard the markers can cross. */
  lemma AnyArityCounts(h: Hash, a: seq<Bytes>, b: seq<Bytes>)
    requires a != [] && b != [] && ShardOf(h, a[0]) != ShardOf(h, b[0]) && Wire(Request(SET, a)) && Wire(Request(SET, b))
    ensures var u, w := Transaction([Request(SET, a)]), Transaction([Request(SET, b)]);
            Logs(u) && Logs(w) && Want(h, Write(u)) == {ShardOf(h, a[0])} && Want(h, Write(u)) !! Want(h, Write(w))
  {
    hide Want, WriteName, KeySpecOf, NamedKeys, Logs;
    OneSet(h, a);
    OneSet(h, b);
  }

  lemma OneSet(h: Hash, args: seq<Bytes>)
    requires args != [] && Wire(Request(SET, args))
    ensures var u := Transaction([Request(SET, args)]);
            Logs(u) && Want(h, Write(u)) == {ShardOf(h, args[0])}
  {
    hide Want, WriteName, KeySpecOf, NamedKeys, GuardShards, Wire, Spoils, Bracketing;
    SetIsKnown();
    SetIsPlain(args);
    var f := Request(SET, args);
    GetAndSet();
    RequestKeys(SET, args);
    assert NamesWrite([f][0]);
    GuardOf(h, f, args[0]);
    forall i | 0 <= i < SHARD_COUNT ensures i in Want(h, Write(Transaction([f]))) <==> i == ShardOf(h, args[0]) {
      WantIff(h, [f], i);
      assert [f][0] == f;
    }
    WantBound(h, Transaction([f]));
  }

  lemma SetIsPlain(args: seq<Bytes>)
    ensures MarkerOf(Request(SET, args)) == NoMarker && !IsPublish(Request(SET, args))
  {
    hide Wire;
    GetAndSet();
    var f := Request(SET, args);
    assert Args(f).Some? ==> Args(f).value[0] == SET;
  }

  lemma GuardOf(h: Hash, f: Frame, k: Bytes)
    requires NamedKeys(f) == [k]
    ensures GuardShards(h, f) == {ShardOf(h, k)}
  {
    hide NamedKeys, Shards;
    assert NamedKeys(f)[0] == k;
  }

  lemma WantBound(h: Hash, u: Unit)
    ensures forall i :: i in Want(h, Write(u)) ==> i < SHARD_COUNT
  {
    hide Want;
    forall i | i in Want(h, Write(u)) ensures i < SHARD_COUNT {
      assert i in ALL;
    }
  }

  /** Two transactions that only read the same key have its guard in common, whatever they write. */
  lemma ReadsCount(h: Hash, a: seq<Bytes>, b: seq<Bytes>, z: Bytes)
    ensures var u, w := Transaction([Request(SET, a), Request(GET, [z])]), Transaction([Request(SET, b), Request(GET, [z])]);
            Want(h, Write(u)) * Want(h, Write(w)) != {}
  {
    hide Want, WriteName, KeySpecOf, NamedKeys;
    var u, w := Transaction([Request(SET, a), Request(GET, [z])]), Transaction([Request(SET, b), Request(GET, [z])]);
    SetThenGet(h, a, z);
    SetThenGet(h, b, z);
    assert ShardOf(h, z) in Want(h, Write(u)) * Want(h, Write(w));
  }

  lemma SetThenGet(h: Hash, a: seq<Bytes>, z: Bytes)
    ensures ShardOf(h, z) in Want(h, Write(Transaction([Request(SET, a), Request(GET, [z])])))
  {
    hide Want, WriteName, KeySpecOf, NamedKeys, GuardShards;
    var f, g := Request(SET, a), Request(GET, [z]);
    GetAndSet();
    RequestKeys(SET, a);
    RequestKeys(GET, [z]);
    GuardOf(h, g, z);
    assert NamesWrite([f, g][0]) && [f, g][1] == g;
    WantIff(h, [f, g], ShardOf(h, z));
  }
}
