// Runs in which a promise of the protocol fails, one for each condition the theorems carry.
module ProtocolCounterexamples {
  import opened Bytes
  import opened Frames
  import opened Names
  import opened Resp
  import opened Commands
  import opened Grouping
  import opened Replay
  import opened CrashAtomicity
  import opened Recovery
  import opened Protocol
  import opened ProtocolLocks
  import opened ProtocolDisk
  import opened ProtocolCrash
  import opened ProtocolDeadlock
  import opened ProtocolLiveness
  import opened ProtocolSchedules

  const ByLength: Hash := k => |k|

  function Server(always: bool): (cfg: Config) { Config(ByLength, 1, always, map[]) }

  // ----- PUBLISH between PSYNC's header and its registration -----

  function PublishFrame(): (f: Frame) { Array([Bulk(PUBLISH), Bulk([]), Bulk([])]) }

  lemma PublishIsPublish()
    ensures IsPublish(PublishFrame()) && WireLen(PublishFrame()) > 0
  {
    assert UpperName(PUBLISH).value == PUBLISH;
    assert Args(PublishFrame()).value == [PUBLISH, [], []];
    EncodeNotEmpty(PublishFrame());
  }

  /** In any letter case, with a channel and a message at least. */
  lemma PublishIff(raw: Bytes, args: seq<Bytes>)
    requires Spells(raw, [80, 85, 66, 76, 73, 83, 72]) && Wire(Frames.Request(raw, args))
    ensures IsPublish(Frames.Request(raw, args)) <==> |args| >= 2
  {
    hide UpperName, Wire;
    var f := Frames.Request(raw, args);
    SpelledName(raw, PUBLISH);
    assert Args(f).value == [raw] + args;
  }

  /** PSYNC has every guard and has read the offset. */
  lemma HeaderRead() returns (s: State)
    ensures Reaches(Server(false), Fresh(2, map[]), s)
    ensures s == Fresh(2, map[]).(clients := [Walking(ForPsync(0), 0, map[]), Idle], guards := s.guards) && |s.guards| == SHARD_COUNT
  {
    hide Run, Want, Reaches, Taken;
    var cfg, s0 := Server(false), Fresh(2, map[]);
    var e := Begin(0, StartPsync);
    Stay(cfg, s0);
    Then(cfg, s0, s0, e);
    var s1 := Next(cfg, s0, e);
    assert s1.clients == [Locking(Psync, 0), Idle];
    LockAll(cfg, s1, 0, Psync, 0);
    var s2 := With(s1, 0, Noting, Taken(s1.guards, Want(cfg.h, Psync), 0, 0));
    Chain(cfg, s0, s1, s2);
    Moves(cfg, s2, 0);
    s := With(s2, 0, Walking(ForPsync(0), 0, map[]), s2.guards);
    Chain(cfg, s0, s2, s);
  }

  /** A message is counted and sent, to nobody. */
  lemma Published(cfg: Config, s: State) returns (t: State)
    requires |s.clients| == 2 && s.clients[1] == Idle && |s.guards| == SHARD_COUNT && s.replicas == []
    ensures Reaches(cfg, s, t) && t == s.(offset := s.offset + WireLen(PublishFrame()))
  {
    hide Run, WireLen, IsPublish, Reaches, NextPhase, NextGuards;
    var f := PublishFrame();
    PublishIsPublish();
    Stay(cfg, s);
    Then(cfg, s, s, Begin(1, StartPublish(f)));
    var s4 := Next(cfg, s, Begin(1, StartPublish(f)));
    var s5 := Counted(cfg, s4, f);
    Chain(cfg, s, s4, s5);
    Then(cfg, s, s5, Act(1));
    t := ActStep(cfg, s5, 1);
    PublishSent(cfg, s5, f);
    assert s.clients[1 := PubCounting(f)][1 := PubSending(f)][1 := Idle] == s.clients;
  }

  lemma Counted(cfg: Config, s: State, f: Frame) returns (t: State)
    requires |s.clients| == 2 && s.clients[1] == PubCounting(f) && |s.guards| == SHARD_COUNT
    ensures Reaches(cfg, s, t) && t == s.(offset := s.offset + WireLen(f), clients := s.clients[1 := PubSending(f)])
  {
    hide Run, WireLen, Reaches;
    Stay(cfg, s);
    Then(cfg, s, s, Act(1));
    t := ActStep(cfg, s, 1);
  }

  lemma PublishSent(cfg: Config, s: State, f: Frame)
    requires |s.clients| == 2 && s.clients[1] == PubSending(f) && |s.guards| == SHARD_COUNT && s.replicas == []
    ensures ActStep(cfg, s, 1) == s.(clients := s.clients[1 := Idle])
  {
  }

  /** A follower joins while one message is published, and is behind for ever though nobody is in the
      middle of anything. */
  lemma PublishRace() returns (s: State)
    ensures Init(Server(false), Fresh(2, map[])) && Reaches(Server(false), Fresh(2, map[]), s) && Quiescent(s) && |s.replicas| == 1
    ensures s.replicas[0].header + |EncodeAll(s.replicas[0].sent)| < s.offset
  {
    hide Run, Encode, WireLen, Reaches;
    var cfg, s0 := Server(false), Fresh(2, map[]);
    FreshIsInit(cfg, 2, map[]);
    var s3 := HeaderRead();
    var s6 := Published(cfg, s3);
    PublishIsPublish();
    Chain(cfg, s0, s3, s6);
    WalkAll(cfg, s6, 0, ForPsync(0), 0, map[]);
    var s7 := With(s6, 0, Registering(0, map[]), s6.guards);
    Chain(cfg, s0, s6, s7);
    s := Joined(cfg, s7);
    Chain(cfg, s0, s7, s);
    assert EncodeAll([]) == [];
  }

  lemma Joined(cfg: Config, s: State) returns (t: State)
    requires s.clients == [Registering(0, map[]), Idle] && |s.guards| == SHARD_COUNT && s.replicas == []
    ensures Reaches(cfg, s, t) && t.clients == [Idle, Idle] && t.queue == s.queue && t.offset == s.offset
    ensures |t.replicas| == 1 && t.replicas[0].header == 0 && t.replicas[0].sent == []
  {
    hide Run, Reaches, Log, UnsentTotal;
    Stay(cfg, s);
    Then(cfg, s, s, Act(0));
    var s8 := ActStep(cfg, s, 0);
    UnlockAll(cfg, s8, 0, ALL, 0, Quit);
    t := With(s8, 0, Idle, Dropped(s8.guards, ALL, 0));
    Chain(cfg, s, s8, t);
  }

  // ----- two clients on different shards -----

  function KeyOf(c: nat): (k: Bytes) { if c == 0 then [] else [0] }

  function UnitOf(c: nat, plain: bool): (u: Unit)
  {
    if plain then Plain(SetFrame(KeyOf(c), [])) else Transaction([SetFrame(KeyOf(c), [])])
  }

  /** Two clients; client `c` uses shard `c` and holds its guard unless it is idle. */
  function Scene(always: bool, p: Phase, q: Phase, store: Store, log: seq<Frame>, over: bool): (s: State)
  {
    State([p, q], seq(SHARD_COUNT, j => if (j == 0 && !p.Idle?) || (j == 1 && !q.Idle?) then Some(j) else None), None, store, [], log,
          map[0 := EncodeAll(log)], if always then |EncodeAll(log)| else 0, 0, 0, map[], map[0 := Gen(0, [])],
          |EncodeAll(log)|, [], over)
  }

  function Swap(p: Phase, q: Phase, c: nat, r: Phase): (ps: (Phase, Phase))
  {
    if c == 0 then (r, q) else (p, r)
  }

  lemma SceneStart(always: bool)
    ensures Fresh(2, map[]) == Scene(always, Idle, Idle, map[], [], false)
  {
  }

  lemma UnitShards(c: nat, plain: bool)
    requires c < 2
    ensures Want(ByLength, Write(UnitOf(c, plain))) == {c} && Submitted(UnitOf(c, plain)) && !Aborts(UnitOf(c, plain))
    ensures Items(UnitOf(c, plain)) == if plain then [SetFrame(KeyOf(c), [])] else [MULTI_FRAME, SetFrame(KeyOf(c), []), EXEC_FRAME]
  {
    hide UnionShards, CommandOf, MarkerOf, SetFrame, Wire, IsPublish, NamesWrite, Spoils, Bracketing;
    var f := SetFrame(KeyOf(c), []);
    SetFrameSets(KeyOf(c), []);
    SetFrameKeys(KeyOf(c), []);
    SetIsKnown();
    assert Items(UnitOf(c, plain)) == if plain then [f] else [MULTI_FRAME, f, EXEC_FRAME];
    UnitUnion(c, f);
  }

  lemma UnitUnion(c: nat, f: Frame)
    requires c < 2 && NamedKeys(f) == [KeyOf(c)]
    ensures UnionShards(ByLength, [f]) == {c} && UnionShards(ByLength, [MULTI_FRAME, f, EXEC_FRAME]) == {c}
  {
    hide NamedKeys, GuardShards;
    OneGuard(c, f);
    NoGuards();
    assert [f][1..] == [] && [EXEC_FRAME][1..] == [] && [f, EXEC_FRAME][1..] == [EXEC_FRAME];
    assert [MULTI_FRAME, f, EXEC_FRAME][1..] == [f, EXEC_FRAME];
    assert UnionShards(ByLength, []) == {} && UnionShards(ByLength, [EXEC_FRAME]) == {};
    assert UnionShards(ByLength, [f]) == {c} && UnionShards(ByLength, [f, EXEC_FRAME]) == {c};
  }

  lemma OneGuard(c: nat, f: Frame)
    requires c < 2 && NamedKeys(f) == [KeyOf(c)]
    ensures GuardShards(ByLength, f) == {c}
  {
    hide NamedKeys, Shards;
    assert ShardOf(ByLength, KeyOf(c)) == c && NamedKeys(f)[0] == KeyOf(c);
  }

  lemma NoGuards()
    ensures GuardShards(ByLength, MULTI_FRAME) == {} && GuardShards(ByLength, EXEC_FRAME) == {}
  {
    hide NamedKeys, Shards;
    MarkerKeys();
  }

  lemma SceneLock(always: bool, p: Phase, q: Phase, store: Store, log: seq<Frame>, over: bool, c: nat, plain: bool)
    requires c < 2 && [p, q][c] == Idle
    ensures Reaches(Server(always), Scene(always, p, q, store, log, over),
                    var (p', q') := Swap(p, q, c, StartItem(ByLength, UnitOf(c, plain), 0));
                    Scene(always, p', q', store, log, over))
  {
    hide Run, Reaches, EncodeAll, Items, StartItem, Want;
    var cfg, s, u := Server(always), Scene(always, p, q, store, log, over), UnitOf(c, plain);
    UnitShards(c, plain);
    BeginWrite(cfg, s, c, u);
    var s1 := s.(clients := s.clients[c := Locking(Write(u), 0)]);
    LockAll(cfg, s1, c, Write(u), 0);
    var s2 := With(s1, c, StartItem(ByLength, u, 0), Taken(s1.guards, {c}, c, 0));
    Chain(cfg, s, s1, s2);
    var (p', q') := Swap(p, q, c, StartItem(ByLength, u, 0));
    var t := Scene(always, p', q', store, log, over);
    assert s2.guards == t.guards;
    assert s2.clients == t.clients;
  }

  lemma SceneItem(always: bool, p: Phase, q: Phase, store: Store, log: seq<Frame>, over: bool, c: nat, plain: bool, pos: nat)
    requires c < 2 && [p, q][c] == Appending(UnitOf(c, plain), pos) && pos < |Items(UnitOf(c, plain))|
    ensures var s := Scene(always, p, q, store, log, over);
            var (p', q') := Swap(p, q, c, StartItem(ByLength, UnitOf(c, plain), pos + 1));
            Reaches(Server(always), s, Scene(always, p', q', store, log + [FrameAt(UnitOf(c, plain), pos)], over || Overlaps(s, c)))
  {
    hide Run, Reaches, EncodeAll, Items, StartItem, Want, Overlaps;
    var cfg, s, u := Server(always), Scene(always, p, q, store, log, over), UnitOf(c, plain);
    var f := FrameAt(u, pos);
    DeliverItem(cfg, s, c, u, pos);
    var s1 := With(Delivering(cfg, s, f), c, StartItem(ByLength, u, pos + 1), s.guards).(overlapped := over || Overlaps(s, c));
    OneMore(log, f);
    var (p', q') := Swap(p, q, c, StartItem(ByLength, u, pos + 1));
    var t := Scene(always, p', q', store, log + [f], over || Overlaps(s, c));
    assert s1.clients == t.clients;
    assert s1.files == t.files;
    assert s1 == t;
  }

  lemma OneMore(log: seq<Frame>, f: Frame)
    ensures EncodeAll(log + [f]) == EncodeAll(log) + Encode(f, Resp2)
  {
    hide Encode;
    EncodeAllAppend(log, [f]);
    assert [f][1..] == [] && EncodeAll([]) == [] && EncodeAll([f]) == Encode(f, Resp2) + [];
  }

  lemma SceneSet(always: bool, p: Phase, q: Phase, store: Store, log: seq<Frame>, over: bool, c: nat, plain: bool)
    requires c < 2 && [p, q][c] == Running(UnitOf(c, plain), if plain then 0 else 1, START)
    ensures Reaches(Server(always), Scene(always, p, q, store, log, over),
                    var (p', q') := Swap(p, q, c, Appending(UnitOf(c, plain), if plain then 0 else 1));
                    Scene(always, p', q', store[KeyOf(c) := []], log, over))
  {
    hide Run, Reaches, EncodeAll, Items, CommandOf, SetFrame, Want, Submitted, Aborts, Logged, IsPublish, NamesWrite, IsAdmin, MarkerOf, Dispatch;
    var cfg, s, u := Server(always), Scene(always, p, q, store, log, over), UnitOf(c, plain);
    var pos := if plain then 0 else 1;
    UnitShards(c, plain);
    SetFrameSets(KeyOf(c), []);
    RunSet(cfg, s, c, u, pos, KeyOf(c), []);
    var (p', q') := Swap(p, q, c, Appending(u, pos));
    var t := Scene(always, p', q', store[KeyOf(c) := []], log, over);
    assert s.clients[c := Appending(u, pos)] == t.clients && s.guards == t.guards;
  }

  lemma SceneUnlock(always: bool, p: Phase, q: Phase, store: Store, log: seq<Frame>, over: bool, c: nat)
    requires c < 2 && [p, q][c] == Unlocking({c}, 0, Quit)
    ensures Reaches(Server(always), Scene(always, p, q, store, log, over),
                    var (p', q') := Swap(p, q, c, Idle);
                    Scene(always, p', q', store, log, over))
  {
    hide Run, Reaches, EncodeAll, Items;
    var cfg, s := Server(always), Scene(always, p, q, store, log, over);
    UnlockAll(cfg, s, c, {c}, 0, Quit);
    var s1 := With(s, c, Idle, Dropped(s.guards, {c}, 0));
    var (p', q') := Swap(p, q, c, Idle);
    var t := Scene(always, p', q', store, log, over);
    assert s1.clients == t.clients && s1.guards == t.guards;
    assert s1 == t;
  }

  /** The phases of a one-command transaction, and of a plain command. */
  lemma ItemPhases(c: nat)
    requires c < 2
    ensures StartItem(ByLength, UnitOf(c, false), 0) == Appending(UnitOf(c, false), 0)
    ensures StartItem(ByLength, UnitOf(c, false), 1) == Running(UnitOf(c, false), 1, START)
    ensures StartItem(ByLength, UnitOf(c, false), 2) == Appending(UnitOf(c, false), 2)
    ensures StartItem(ByLength, UnitOf(c, false), 3) == Unlocking({c}, 0, Quit)
    ensures StartItem(ByLength, UnitOf(c, true), 0) == Running(UnitOf(c, true), 0, START)
    ensures StartItem(ByLength, UnitOf(c, true), 1) == Unlocking({c}, 0, Quit)
  {
    hide Want, Items, MarkerOf, SetFrame;
    UnitShards(c, false);
    UnitShards(c, true);
    SetFrameSets(KeyOf(c), []);
    MarkersAreMarkers();
  }

  function SetOf(c: nat): (f: Frame) { SetFrame(KeyOf(c), []) }

  const BOTH: seq<Frame> := [MULTI_FRAME, MULTI_FRAME, SetOf(0), EXEC_FRAME, SetOf(1), EXEC_FRAME]

  /** Both clients open a transaction before either closes its own, and both are answered. */
  lemma OverlappedRun() returns (s: State)
    ensures Init(Server(false), Fresh(2, map[])) && Reaches(Server(false), Fresh(2, map[]), s)
    ensures s == Scene(false, Idle, Idle, map[[] := [], [0] := []], BOTH, true)
  {
    hide Run, Reaches, EncodeAll, Items, Want, StartItem, Scene, SetFrame;
    var cfg, s0, u, w := Server(false), Fresh(2, map[]), UnitOf(0, false), UnitOf(1, false);
    FreshIsInit(cfg, 2, map[]);
    SceneStart(false);
    ItemPhases(0);
    ItemPhases(1);
    UnitShards(0, false);
    UnitShards(1, false);
    SceneLock(false, Idle, Idle, map[], [], false, 0, false);
    SceneLock(false, Appending(u, 0), Idle, map[], [], false, 1, false);
    Chain(cfg, s0, Scene(false, Appending(u, 0), Idle, map[], [], false), Scene(false, Appending(u, 0), Appending(w, 0), map[], [], false));
    s := BothCommit();
    Chain(cfg, s0, Scene(false, Appending(u, 0), Appending(w, 0), map[], [], false), s);
  }

  /** The server is at rest with both keys set, and a restart finds nothing. */
  lemma OverlapLosesBoth() returns (s: State)
    ensures Init(Server(false), Fresh(2, map[])) && Reaches(Server(false), Fresh(2, map[]), s) && Quiescent(s)
    ensures s.store == map[[] := [], [0] := []] && s.overlapped
    ensures forall d :: CrashDisk(s, d) ==> Recovered(d).Up? && Recovered(d).store == map[]
  {
    hide Run, Reaches, Recovered, Scene, SetFrame;
    s := OverlappedRun();
    SceneIs(false, Idle, Idle, map[[] := [], [0] := []], BOTH, true);
    forall d | CrashDisk(s, d) ensures Recovered(d).Up? && Recovered(d).store == map[] {
      NothingReadable(s, d);
    }
  }

  /** A SAVE after that puts it right: replay then starts behind the crossed brackets. */
  lemma SaveHeals() returns (s: State)
    ensures Init(Server(false), Fresh(2, map[])) && Reaches(Server(false), Fresh(2, map[]), s) && Quiescent(s)
    ensures s.store == map[[] := [], [0] := []] && s.overlapped && s.hist == BOTH
    ensures forall d :: CrashDisk(s, d) ==> Recovered(d).Up? && Recovered(d).store == s.store
  {
    hide Run, Reaches, Recovered, SetFrame, EncodeAll, CrashDisk;
    var cfg, s0 := Server(false), Fresh(2, map[]);
    var t := OverlappedRun();
    assert t.guards == NONE_HELD;
    s := SaveAlone(cfg, t, 0);
    Chain(cfg, s0, t, s);
    forall d | CrashDisk(s, d) ensures Recovered(d).Up? && Recovered(d).store == s.store {
      SavedWhole(s, d);
    }
  }

  /** A snapshot of the whole file is all a restart reads. */
  lemma SavedWhole(s: State, d: Disk)
    requires CrashDisk(s, d) && s.manifest == s.active == 0 && 0 in s.files && s.synced == |s.files[0]|
    requires 0 in s.snaps && s.snaps[0] == Snap(|s.files[0]|, s.store)
    ensures Recovered(d).Up? && Recovered(d).store == s.store
  {
    var raw := d.aofs[0];
    assert raw == s.files[0] && raw[|raw|..] == [];
    NothingParsed();
    ScanStops([], None);
    FoldNothing(s.store);
  }

  lemma SceneIs(always: bool, p: Phase, q: Phase, store: Store, log: seq<Frame>, over: bool)
    ensures var s := Scene(always, p, q, store, log, over);
            s.clients == [p, q] && s.store == store && s.overlapped == over && s.queue == [] && s.hist == log
  {
  }

  /** A transaction's command, EXEC and release, from the moment after its MULTI. */
  lemma FinishTransaction(p: Phase, q: Phase, store: Store, log: seq<Frame>, over: bool, c: nat)
    requires c < 2 && [p, q][c] == Running(UnitOf(c, false), 1, START)
    ensures var (p', q') := Swap(p, q, c, Idle);
            Reaches(Server(false), Scene(false, p, q, store, log, over),
                    Scene(false, p', q', store[KeyOf(c) := []], log + [SetOf(c)] + [EXEC_FRAME], over))
  {
    hide Run, Reaches, EncodeAll, Items, Want, StartItem, Scene, SetFrame, Overlaps;
    var cfg, u, s0, store' := Server(false), UnitOf(c, false), Scene(false, p, q, store, log, over), store[KeyOf(c) := []];
    ItemPhases(c);
    UnitShards(c, false);
    SceneSet(false, p, q, store, log, over, c, false);
    var (p1, q1) := Swap(p, q, c, Appending(u, 1));
    SceneItem(false, p1, q1, store', log, over, c, false, 1);
    NoOverlap(Scene(false, p1, q1, store', log, over), c, p1, q1, store', log, over);
    var (p2, q2) := Swap(p, q, c, Appending(u, 2));
    Chain(cfg, s0, Scene(false, p1, q1, store', log, over), Scene(false, p2, q2, store', log + [SetOf(c)], over));
    SceneItem(false, p2, q2, store', log + [SetOf(c)], over, c, false, 2);
    NoOverlap(Scene(false, p2, q2, store', log + [SetOf(c)], over), c, p2, q2, store', log + [SetOf(c)], over);
    var (p3, q3) := Swap(p, q, c, Unlocking({c}, 0, Quit));
    var done := log + [SetOf(c)] + [EXEC_FRAME];
    Chain(cfg, s0, Scene(false, p2, q2, store', log + [SetOf(c)], over), Scene(false, p3, q3, store', done, over));
    SceneUnlock(false, p3, q3, store', done, over, c);
    var (p4, q4) := Swap(p, q, c, Idle);
    Chain(cfg, s0, Scene(false, p3, q3, store', done, over), Scene(false, p4, q4, store', done, over));
  }

  /** Only a transaction's first frame can open it inside another. */
  lemma NoOverlap(s: State, c: nat, p: Phase, q: Phase, store: Store, log: seq<Frame>, over: bool)
    requires s == Scene(false, p, q, store, log, over) && c < 2 && [p, q][c].Appending? && [p, q][c].pos > 0
    ensures !Overlaps(s, c)
  {
    SceneIs(false, p, q, store, log, over);
  }

  lemma BothCommit() returns (s: State)
    ensures var u, w := UnitOf(0, false), UnitOf(1, false);
            Reaches(Server(false), Scene(false, Appending(u, 0), Appending(w, 0), map[], [], false), s)
    ensures s == Scene(false, Idle, Idle, map[[] := [], [0] := []], BOTH, true)
  {
    hide Run, Reaches, EncodeAll, Items, Want, StartItem, Scene, SetFrame, Overlaps;
    var cfg, u, w, m := Server(false), UnitOf(0, false), UnitOf(1, false), MULTI_FRAME;
    var s0, in0, in1 := Scene(false, Appending(u, 0), Appending(w, 0), map[], [], false), Running(u, 1, START), Running(w, 1, START);
    ItemPhases(0);
    ItemPhases(1);
    UnitShards(0, false);
    UnitShards(1, false);
    SceneItem(false, Appending(u, 0), Appending(w, 0), map[], [], false, 0, false, 0);
    FirstOpens(s0);
    var s1 := Scene(false, in0, Appending(w, 0), map[], [] + [m], false);
    SceneItem(false, in0, Appending(w, 0), map[], [] + [m], false, 1, false, 0);
    SecondOverlaps(s1, [] + [m]);
    var s2 := Scene(false, in0, in1, map[], [] + [m] + [m], true);
    Chain(cfg, s0, s1, s2);
    FinishTransaction(in0, in1, map[], [] + [m] + [m], true, 0);
    var log := [] + [m] + [m] + [SetOf(0)] + [EXEC_FRAME];
    var s3 := Scene(false, Idle, in1, map[[] := []], log, true);
    Chain(cfg, s0, s2, s3);
    FinishTransaction(Idle, in1, map[[] := []], log, true, 1);
    s := Scene(false, Idle, Idle, map[[] := []][[0] := []], log + [SetOf(1)] + [EXEC_FRAME], true);
    Chain(cfg, s0, s3, s);
    assert log + [SetOf(1)] + [EXEC_FRAME] == [m, m, SetOf(0), EXEC_FRAME, SetOf(1), EXEC_FRAME];
    var one: Store := map[[] := []];
    assert one[[0] := []] == map[[] := [], [0] := []];
  }

  lemma FirstOpens(s: State)
    requires s == Scene(false, Appending(UnitOf(0, false), 0), Appending(UnitOf(1, false), 0), map[], [], false)
    ensures !Overlaps(s, 0)
  {
  }

  lemma SecondOverlaps(s: State, log: seq<Frame>)
    requires s == Scene(false, Running(UnitOf(0, false), 1, START), Appending(UnitOf(1, false), 0), map[], log, false)
    ensures Overlaps(s, 1)
  {
    hide SetFrame;
    SetIsMarked(0);
    SetIsMarked(1);
    assert InsideTransaction(s.clients[0]);
  }

  lemma SetIsMarked(c: nat)
    requires c < 2
    ensures Marked(UnitOf(c, false))
  {
    SetFrameSets(KeyOf(c), []);
    assert NamesWrite(UnitOf(c, false).fs[0]);
  }

  /** A strict reader stops at the second MULTI, with the first transaction still open. */
  lemma NothingReadable(s: State, d: Disk)
    requires CrashDisk(s, d)
    requires s == Scene(false, Idle, Idle, map[[] := [], [0] := []], BOTH, true)
    ensures Recovered(d).Up? && Recovered(d).store == map[]
  {
    hide Encode, EncodeAll, Fold, Recovered, Survived, IsSafeCut, Wire, MarkerOf;
    var log, cfg := s.hist, Server(false);
    LogIsWire();
    assert log[0..|log|] == log;
    var cut, m := DiskReplay(cfg, s, d);
    assert log[0..Survived(s, d)] == log[..Survived(s, d)];
    NeverClosed(log, m, Survived(s, d));
    assert log[..0] == [];
    FoldNothing(map[]);
  }

  lemma LogIsWire()
    ensures Wire(MULTI_FRAME) && Wire(EXEC_FRAME) && Wire(SetOf(0)) && Wire(SetOf(1))
  {
  }

  lemma OpenPrefix(log: seq<Frame>, m: nat)
    requires |log| >= 2 && log[0] == log[1] == MULTI_FRAME && 0 < m <= |log|
    ensures Bracket(None, log[..m]) != Some(None)
  {
    hide MarkerOf;
    MarkersAreMarkers();
    var one, two := [MULTI_FRAME], [MULTI_FRAME] + [MULTI_FRAME];
    assert one[..0] == [] && two[..1] == one;
    assert Bracket(None, one) == Some(Some([])) && Bracket(None, two).None?;
    if m == 1 {
      assert log[..1] == one;
    } else {
      assert log[..m] == two + log[2..m];
      BracketAppend(None, two, log[2..m]);
    }
  }

  lemma NeverClosed(log: seq<Frame>, m: nat, e: nat)
    requires |log| >= 2 && log[0] == log[1] == MULTI_FRAME && m <= e <= |log| && IsSafeCut(None, log[..e], m)
    ensures m == 0
  {
    hide Bracket;
    assert log[..e][..m] == log[..m];
    if m > 0 {
      OpenPrefix(log, m);
    }
  }

  // ----- an answered write inside somebody else's open transaction -----

  /** Under the fsync-always policy one client's SET is written, fsynced and answered while another
      client's MULTI is open in the log; a crash at that moment loses it. */
  lemma AnsweredWriteLost() returns (s: State)
    ensures Init(Server(true), Fresh(2, map[])) && Reaches(Server(true), Fresh(2, map[]), s)
    ensures |s.clients| == 2 && s.clients[1] == Idle && !s.overlapped
    ensures s.store == map[[0] := []] && s.synced == |EncodeAll(s.hist)| && SetOf(1) in s.hist
    ensures forall d :: CrashDisk(s, d) ==> Recovered(d).Up? && Recovered(d).store == map[]
  {
    hide Run, Reaches, EncodeAll, Recovered, Scene, SetFrame, CrashDisk, Init;
    FreshIsInit(Server(true), 2, map[]);
    s := AnsweredRun();
    OpenLog(s);
  }

  lemma AnsweredRun() returns (s: State)
    ensures Reaches(Server(true), Fresh(2, map[]), s)
    ensures s == Scene(true, Running(UnitOf(0, false), 1, START), Idle, map[[0] := []], [MULTI_FRAME, SetOf(1)], false)
  {
    hide Run, Reaches, Scene, SetFrame;
    var in0 := Running(UnitOf(0, false), 1, START);
    LoneOpened();
    PlainWrite(in0, [MULTI_FRAME]);
    s := Scene(true, in0, Idle, map[[0] := []], [MULTI_FRAME] + [SetOf(1)], false);
    Chain(Server(true), Fresh(2, map[]), Scene(true, in0, Idle, map[], [MULTI_FRAME], false), s);
    assert [MULTI_FRAME] + [SetOf(1)] == [MULTI_FRAME, SetOf(1)];
  }

  /** Client 0 has written its MULTI. */
  lemma LoneOpened()
    ensures Reaches(Server(true), Fresh(2, map[]), Scene(true, Running(UnitOf(0, false), 1, START), Idle, map[], [MULTI_FRAME], false))
  {
    hide Run, Reaches, Items, Want, StartItem, Scene, SetFrame, Overlaps;
    var u := UnitOf(0, false);
    SceneStart(true);
    ItemPhases(0);
    UnitShards(0, false);
    SceneLock(true, Idle, Idle, map[], [], false, 0, false);
    var s1 := Scene(true, Appending(u, 0), Idle, map[], [], false);
    SceneItem(true, Appending(u, 0), Idle, map[], [], false, 0, false, 0);
    LoneOpens(s1);
    assert [] + [MULTI_FRAME] == [MULTI_FRAME];
    Chain(Server(true), Fresh(2, map[]), s1, Scene(true, Running(u, 1, START), Idle, map[], [MULTI_FRAME], false));
  }

  /** Client 1's SET, from start to answer, while client 0 stands still. */
  lemma PlainWrite(p: Phase, log: seq<Frame>)
    requires p == Running(UnitOf(0, false), 1, START)
    ensures Reaches(Server(true), Scene(true, p, Idle, map[], log, false),
                    Scene(true, p, Idle, map[[0] := []], log + [SetOf(1)], false))
  {
    hide Run, Reaches, EncodeAll, Items, Want, StartItem, Scene, SetFrame, Overlaps;
    var cfg, w, b := Server(true), UnitOf(1, true), SetOf(1);
    ItemPhases(1);
    UnitShards(1, true);
    var s2 := Scene(true, p, Idle, map[], log, false);
    SceneLock(true, p, Idle, map[], log, false, 1, true);
    var s3 := Scene(true, p, Running(w, 0, START), map[], log, false);
    SceneSet(true, p, Running(w, 0, START), map[], log, false, 1, true);
    var s4 := Scene(true, p, Appending(w, 0), map[[0] := []], log, false);
    Chain(cfg, s2, s3, s4);
    SceneItem(true, p, Appending(w, 0), map[[0] := []], log, false, 1, true, 0);
    PlainNeverOverlaps(s4, log);
    var s5 := Scene(true, p, Unlocking({1}, 0, Quit), map[[0] := []], log + [b], false);
    Chain(cfg, s2, s4, s5);
    SceneUnlock(true, p, Unlocking({1}, 0, Quit), map[[0] := []], log + [b], false, 1);
    Chain(cfg, s2, s5, Scene(true, p, Idle, map[[0] := []], log + [b], false));
  }

  lemma LoneOpens(s: State)
    requires s == Scene(true, Appending(UnitOf(0, false), 0), Idle, map[], [], false)
    ensures !Overlaps(s, 0)
  {
  }

  lemma PlainNeverOverlaps(s: State, log: seq<Frame>)
    requires s == Scene(true, Running(UnitOf(0, false), 1, START), Appending(UnitOf(1, true), 0), map[[0] := []], log, false)
    ensures !Overlaps(s, 1)
  {
  }

  lemma OpenLog(s: State)
    requires s == Scene(true, Running(UnitOf(0, false), 1, START), Idle, map[[0] := []], [MULTI_FRAME, SetOf(1)], false)
    ensures |s.clients| == 2 && s.clients[1] == Idle && !s.overlapped && s.store == map[[0] := []]
    ensures s.synced == |EncodeAll(s.hist)| && SetOf(1) in s.hist
    ensures forall d :: CrashDisk(s, d) ==> Recovered(d).Up? && Recovered(d).store == map[]
  {
    hide Encode, EncodeAll, Fold, Recovered, Survived, IsSafeCut, Wire, MarkerOf, Bracket;
    var log, cfg := s.hist, Server(true);
    assert log[1] == SetOf(1);
    LogIsWire();
    assert log[0..|log|] == log;
    forall d | CrashDisk(s, d) ensures Recovered(d).Up? && Recovered(d).store == map[] {
      var cut, m := DiskReplay(cfg, s, d);
      assert log[0..Survived(s, d)] == log[..Survived(s, d)];
      StillOpen(m, Survived(s, d));
      assert log[..0] == [];
      FoldNothing(map[]);
    }
  }

  lemma StillOpen(m: nat, e: nat)
    requires m <= e <= 2 && IsSafeCut(None, [MULTI_FRAME, SetOf(1)][..e], m)
    ensures m == 0
  {
    SetFrameSets(KeyOf(1), []);
    OpenTransaction([SetOf(1)], 0);
    OpenTransaction([SetOf(1)], 1);
    var log := [MULTI_FRAME, SetOf(1)];
    assert log == [MULTI_FRAME] + [SetOf(1)] && log[..2] == log;
    assert log[..e][..m] == log[..m];
  }

  // ----- SAVE or BGREWRITEAOF queued in a transaction -----

  /** On an idle server, any transaction that queues one of them ends in a state where nothing can move,
      and its client is never answered whatever anybody asks for afterwards. */
  lemma NestedStuck(cfg: Config, u: Unit) returns (es: seq<Event>)
    requires cfg.base == map[] && cfg.capacity > 0 && Submitted(u) && Nests(u)
    ensures Init(cfg, Fresh(1, map[])) && Run(cfg, Fresh(1, map[]), es).Some? && Dry(cfg, Run(cfg, Fresh(1, map[]), es).value)
    ensures forall more :: Run(cfg, Fresh(1, map[]), es + more).Some? ==>
      |Run(cfg, Fresh(1, map[]), es + more).value.clients| == 1 && !Run(cfg, Fresh(1, map[]), es + more).value.clients[0].Idle?
  {
    hide Submitted, Nests, Items, Run, CanAct, Want, Work;
    var s0, e := Fresh(1, map[]), Begin(0, StartWrite(u));
    FreshIsInit(cfg, 1, map[]);
    OneEvent(cfg, s0, e);
    var more := RunsDry(cfg, s0, [e]);
    es := [e] + more;
    forall later | Run(cfg, s0, es + later).Some?
      ensures |Run(cfg, s0, es + later).value.clients| == 1 && !Run(cfg, s0, es + later).value.clients[0].Idle?
    {
      assert (es + later)[0] == e && AsksNested(e);
      AskedIsDoomed(cfg, s0, es + later, 0);
      DoomedBusy(Run(cfg, s0, es + later).value.clients[0]);
      ClientsStay(cfg, s0, es + later);
    }
  }

  lemma OneEvent(cfg: Config, s: State, e: Event)
    requires Enabled(cfg, s, e)
    ensures Run(cfg, s, [e]) == Some(Next(cfg, s, e))
  {
    hide Enabled, Next;
    assert [e][..0] == [];
    assert Run(cfg, s, []) == Some(s);
  }

  lemma {:induction false} ClientsStay(cfg: Config, s: State, es: seq<Event>)
    requires Run(cfg, s, es).Some?
    ensures |Run(cfg, s, es).value.clients| == |s.clients|
  {
    hide Enabled, Next;
    if es != [] {
      ClientsStay(cfg, s, es[..|es| - 1]);
      SameCount(cfg, Run(cfg, s, es[..|es| - 1]).value, es[|es| - 1]);
    }
  }

  /** The smallest such transactions: MULTI, SAVE, EXEC and MULTI, BGREWRITEAOF, EXEC. */
  lemma AdminNests(name: Bytes)
    requires name == SAVE || name == BGREWRITEAOF
    ensures var u := Transaction([Array([Bulk(name)])]);
            Submitted(u) && Nests(u)
  {
    hide Want, NamesWrite, Spoils, Bracketing, IsPublish, Wire;
    var f := Array([Bulk(name)]);
    AdminNames(name);
    assert MarkerOf(f) == NoMarker;
    assert Items(Transaction([f])) == [f];
    assert IsAdmin(Items(Transaction([f]))[0]);
  }

  lemma AdminNames(name: Bytes)
    requires name == SAVE || name == BGREWRITEAOF
    ensures var f := Array([Bulk(name)]);
            && NameOf(f).Some? && !Bracketing(NameOf(f).value) && !Spoils(NameOf(f).value) && !NamesWrite(f)
            && IsAdmin(f) && Wire(f) && !IsPublish(f) && UpperName(name) == Some(name)
  {
    hide Spoils, WriteName, Bracketing;
    assert UpperName(SAVE).value == SAVE && UpperName(BGREWRITEAOF).value == BGREWRITEAOF;
    assert Text(SAVE) == "SAVE" && Text(BGREWRITEAOF) == "BGREWRITEAOF";
    AdminListed();
  }

  lemma AdminListed()
    ensures !Spoils("SAVE") && !Spoils("BGREWRITEAOF") && !Bracketing("SAVE") && !Bracketing("BGREWRITEAOF")
    ensures !WriteName("SAVE") && !WriteName("BGREWRITEAOF")
  {
  }

  /** A transaction with a name the server does not know, or SUBSCRIBE and the like, is answered at once
      and leaves no trace, whatever else it queued. */
  lemma AbortedIsAnswered(cfg: Config, u: Unit)
    requires cfg.base == map[] && cfg.capacity > 0 && Submitted(u) && Aborts(u)
    ensures Init(cfg, Fresh(1, map[])) && Reaches(cfg, Fresh(1, map[]), Fresh(1, map[])) && !Nests(u)
    ensures Run(cfg, Fresh(1, map[]), [Begin(0, StartWrite(u)), Act(0)]) == Some(Fresh(1, map[]))
  {
    hide Submitted, Aborts, Run, CanAct;
    var s0, e := Fresh(1, map[]), Begin(0, StartWrite(u));
    FreshIsInit(cfg, 1, map[]);
    OneEvent(cfg, s0, e);
    var s1 := Next(cfg, s0, e);
    AbortStep(cfg, s1);
    assert s1.clients[0 := Idle] == s0.clients;
    OneEvent(cfg, s1, Act(0));
    RunAppend(cfg, s0, [e], [Act(0)]);
    assert [e] + [Act(0)] == [e, Act(0)];
  }

  lemma AbortStep(cfg: Config, s: State)
    requires |s.clients| == 1 && s.clients[0] == Unlocking({}, SHARD_COUNT, Quit) && |s.guards| == SHARD_COUNT
    ensures CanAct(cfg, s, 0) && ActStep(cfg, s, 0) == s.(clients := s.clients[0 := Idle])
  {
  }

  /** So SAVE is harmless beside such a name: MULTI, SAVE, FOO, EXEC. */
  lemma SaveBesideUnknown()
    ensures var u := Transaction([Array([Bulk(SAVE)]), Array([Bulk([70, 79, 79])])]);
            Submitted(u) && Aborts(u) && !Nests(u)
  {
    hide NamesWrite, IsPublish, Wire;
    var f, foo := Array([Bulk(SAVE)]), Array([Bulk([70, 79, 79])]);
    AdminNames(SAVE);
    UnknownName();
    assert MarkerOf(f) == NoMarker;
    assert NameOf(Transaction([f, foo]).fs[1]) == Some("FOO");
  }

  lemma UnknownName()
    ensures var f := Array([Bulk([70, 79, 79])]);
            NameOf(f) == Some("FOO") && Spoils("FOO") && !Bracketing("FOO") && MarkerOf(f) == NoMarker && Wire(f) && !IsPublish(f)
  {
    var raw: Bytes := [70, 79, 79];
    assert UpperName(raw).value == raw;
    assert Text(raw) == "FOO";
  }
}
