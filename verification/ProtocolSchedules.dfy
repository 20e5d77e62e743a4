// Particular schedules, built step by step, that show what the locks do not prevent.
module ProtocolSchedules {
  import opened Bytes
  import opened Frames
  import opened Names
  import opened Resp
  import opened Commands
  import opened Grouping
  import opened CrashAtomicity
  import opened Protocol
  import opened ProtocolLocks

  // ----- putting runs together -----

  lemma {:induction false} RunAppend(cfg: Config, s: State, es: seq<Event>, fs: seq<Event>)
    requires Run(cfg, s, es).Some?
    ensures Run(cfg, s, es + fs) == Run(cfg, Run(cfg, s, es).value, fs)
  {
    hide Enabled, Next;
    if fs == [] {
      assert es + fs == es;
    } else {
      RunAppend(cfg, s, es, fs[..|fs| - 1]);
      assert (es + fs)[..|es + fs| - 1] == es + fs[..|fs| - 1];
    }
  }

  ghost predicate Reaches(cfg: Config, s: State, t: State)
  {
    exists es :: Run(cfg, s, es) == Some(t)
  }

  lemma Stay(cfg: Config, s: State)
    ensures Reaches(cfg, s, s)
  {
    assert Run(cfg, s, []) == Some(s);
  }

  lemma Chain(cfg: Config, s: State, t: State, u: State)
    requires Reaches(cfg, s, t) && Reaches(cfg, t, u)
    ensures Reaches(cfg, s, u)
  {
    hide Run;
    var es :| Run(cfg, s, es) == Some(t);
    var fs :| Run(cfg, t, fs) == Some(u);
    RunAppend(cfg, s, es, fs);
    assert Run(cfg, s, es + fs) == Some(u);
  }

  lemma Then(cfg: Config, s: State, t: State, e: Event)
    requires Reaches(cfg, s, t) && Enabled(cfg, t, e)
    ensures Reaches(cfg, s, Next(cfg, t, e))
  {
    hide Enabled, Next;
    var es :| Run(cfg, s, es) == Some(t);
    assert (es + [e])[..|es|] == es;
    assert Run(cfg, s, es + [e]) == Some(Next(cfg, t, e));
  }

  // ----- whole phases of one client -----

  function Taken(g: seq<Option<nat>>, want: set<nat>, c: nat, i: nat): (r: seq<Option<nat>>)
    ensures |r| == |g|
  {
    seq(|g|, j requires 0 <= j < |g| => if j in want && i <= j then Some(c) else g[j])
  }

  function Dropped(g: seq<Option<nat>>, held: set<nat>, i: nat): (r: seq<Option<nat>>)
    ensures |r| == |g|
  {
    seq(|g|, j requires 0 <= j < |g| => if j in held && i <= j then None else g[j])
  }

  function With(s: State, c: nat, p: Phase, g: seq<Option<nat>>): (t: State)
    requires c < |s.clients|
  {
    s.(clients := s.clients[c := p], guards := g)
  }

  /** Phases whose step changes nothing but the client itself and the guards. */
  predicate OnlyMoves(p: Phase)
  {
    || p.Locking? || p.Unlocking? || p.Walking? || p.ReadingGen? || p.Noting? || p.Measuring?
  }

  lemma MoveStep(cfg: Config, s: State, c: nat)
    requires CanAct(cfg, s, c) && OnlyMoves(s.clients[c])
    ensures ActStep(cfg, s, c) == With(s, c, NextPhase(cfg, s, c), NextGuards(cfg, s, c))
  {
    hide NextPhase, NextGuards;
  }

  lemma Moves(cfg: Config, s: State, c: nat)
    requires CanAct(cfg, s, c) && OnlyMoves(s.clients[c])
    ensures Reaches(cfg, s, With(s, c, NextPhase(cfg, s, c), NextGuards(cfg, s, c)))
  {
    hide NextPhase, NextGuards, CanAct, Run, OnlyMoves, ActStep;
    Stay(cfg, s);
    Then(cfg, s, s, Act(c));
    MoveStep(cfg, s, c);
  }

  /** Acquiring guards nobody holds. */
  lemma {:induction false} LockAll(cfg: Config, s: State, c: nat, job: Job, i: nat)
    requires c < |s.clients| && |s.guards| == SHARD_COUNT && i <= SHARD_COUNT && s.clients[c] == Locking(job, i)
    requires forall j :: i <= j < SHARD_COUNT && j in Want(cfg.h, job) ==> s.guards[j].None?
    ensures Reaches(cfg, s, With(s, c, Enter(cfg.h, job), Taken(s.guards, Want(cfg.h, job), c, i)))
    decreases SHARD_COUNT - i
  {
    hide Want, Items, Run, Enter, Reaches, ActStep;
    var t := With(s, c, NextPhase(cfg, s, c), NextGuards(cfg, s, c));
    Moves(cfg, s, c);
    if i == SHARD_COUNT {
      assert Taken(s.guards, Want(cfg.h, job), c, i) == s.guards;
      assert t == With(s, c, Enter(cfg.h, job), Taken(s.guards, Want(cfg.h, job), c, i));
    } else {
      LockAll(cfg, t, c, job, i + 1);
      var u := With(t, c, Enter(cfg.h, job), Taken(t.guards, Want(cfg.h, job), c, i + 1));
      assert u.guards == Taken(s.guards, Want(cfg.h, job), c, i);
      assert u == With(s, c, Enter(cfg.h, job), Taken(s.guards, Want(cfg.h, job), c, i));
      Chain(cfg, s, t, u);
    }
  }

  lemma {:induction false} UnlockAll(cfg: Config, s: State, c: nat, held: set<nat>, i: nat, fin: Finish)
    requires c < |s.clients| && |s.guards| == SHARD_COUNT && i <= SHARD_COUNT && s.clients[c] == Unlocking(held, i, fin)
    ensures Reaches(cfg, s, With(s, c, AfterUnlock(fin), Dropped(s.guards, held, i)))
    decreases SHARD_COUNT - i
  {
    hide Items, Run, AfterUnlock, Reaches, ActStep;
    var t := With(s, c, NextPhase(cfg, s, c), NextGuards(cfg, s, c));
    Moves(cfg, s, c);
    if i == SHARD_COUNT {
      assert Dropped(s.guards, held, i) == s.guards;
      assert t == With(s, c, AfterUnlock(fin), Dropped(s.guards, held, i));
    } else {
      UnlockAll(cfg, t, c, held, i + 1, fin);
      var u := With(t, c, AfterUnlock(fin), Dropped(t.guards, held, i + 1));
      assert u.guards == Dropped(s.guards, held, i);
      assert u == With(s, c, AfterUnlock(fin), Dropped(s.guards, held, i));
      Chain(cfg, s, t, u);
    }
  }

  /** The walk over the shards ends with the whole keyspace. */
  lemma {:induction false} WalkAll(cfg: Config, s: State, c: nat, why: Purpose, i: nat, img: Store)
    requires c < |s.clients| && |s.guards| == SHARD_COUNT && i <= SHARD_COUNT && s.clients[c] == Walking(why, i, img)
    requires forall k :: Lookup(img, k) == if ShardOf(cfg.h, k) < i then Lookup(s.store, k) else None
    ensures Reaches(cfg, s, With(s, c, AfterWalk(why, s.store), s.guards))
    decreases SHARD_COUNT - i
  {
    hide Items, Run, AfterWalk, Reaches, ActStep, Lookup, ShardPart, ShardOf;
    var t := With(s, c, NextPhase(cfg, s, c), NextGuards(cfg, s, c));
    Moves(cfg, s, c);
    if i == SHARD_COUNT {
      SameStore(img, s.store);
      assert t == With(s, c, AfterWalk(why, s.store), s.guards);
    } else {
      var img' := img + ShardPart(cfg.h, s.store, i);
      WalkOne(cfg.h, s.store, img, i);
      WalkAll(cfg, t, c, why, i + 1, img');
      assert With(t, c, AfterWalk(why, t.store), t.guards) == With(s, c, AfterWalk(why, s.store), s.guards);
      Chain(cfg, s, t, With(t, c, AfterWalk(why, t.store), t.guards));
    }
  }

  lemma WalkOne(h: Hash, store: Store, img: Store, i: nat)
    requires forall k :: Lookup(img, k) == if ShardOf(h, k) < i then Lookup(store, k) else None
    ensures forall k :: Lookup(img + ShardPart(h, store, i), k) == if ShardOf(h, k) < i + 1 then Lookup(store, k) else None
  {
    forall k ensures Lookup(img + ShardPart(h, store, i), k) == if ShardOf(h, k) < i + 1 then Lookup(store, k) else None {
      assert Lookup(img, k) == if ShardOf(h, k) < i then Lookup(store, k) else None;
    }
  }

  /** A frame of a section written to the file, counted and sent. */
  function Delivering(cfg: Config, s: State, f: Frame): (t: State)
  {
    var file := (if s.active in s.files then s.files[s.active] else []) + Encode(f, Resp2);
    s.(hist := s.hist + [f], files := s.files[s.active := file], synced := if cfg.always then |file| else s.synced,
       offset := s.offset + WireLen(f), replicas := SendAll(s.replicas, f))
  }

  /** The frame is queued, and the writer thread writes it. */
  lemma WriteItem(cfg: Config, s: State, c: nat, u: Unit, pos: nat) returns (t: State)
    requires c < |s.clients| && |s.guards| == SHARD_COUNT && s.queue == [] && cfg.capacity > 0
    requires s.clients[c] == Appending(u, pos) && pos < |Items(u)|
    ensures Reaches(cfg, s, t)
    ensures var done := Delivering(cfg, s, FrameAt(u, pos));
            t == s.(clients := s.clients[c := Counting(u, pos)], hist := done.hist, files := done.files,
                    synced := done.synced, overlapped := s.overlapped || Overlaps(s, c))
  {
    hide Items, Run, Encode, Want, Overlaps;
    Stay(cfg, s);
    Then(cfg, s, s, Act(c));
    var t1 := ActStep(cfg, s, c);
    Then(cfg, s, t1, Drain);
    t := DrainStep(t1);
    assert t.clients == s.clients[c := Counting(u, pos)] && t.queue == [];
  }

  lemma DeliverItem(cfg: Config, s: State, c: nat, u: Unit, pos: nat)
    requires c < |s.clients| && |s.guards| == SHARD_COUNT && s.queue == [] && cfg.capacity > 0
    requires s.clients[c] == Appending(u, pos) && pos < |Items(u)|
    ensures Reaches(cfg, s, With(Delivering(cfg, s, FrameAt(u, pos)), c, StartItem(cfg.h, u, pos + 1), s.guards)
                            .(overlapped := s.overlapped || Overlaps(s, c)))
  {
    hide Items, Run, StartItem, Encode, Want;
    var t2 := WriteItem(cfg, s, c, u, pos);
    Then(cfg, s, t2, Act(c));
    var t3 := ActStep(cfg, t2, c);
    Then(cfg, s, t3, Act(c));
    assert ActStep(cfg, t3, c) == With(Delivering(cfg, s, FrameAt(u, pos)), c, StartItem(cfg.h, u, pos + 1), s.guards)
                            .(overlapped := s.overlapped || Overlaps(s, c));
  }

  // ----- frames and servers to run them on -----

  function SetFrame(k: Bytes, v: Bytes): (f: Frame)
  {
    Array([Bulk(SET), Bulk(k), Bulk(v)])
  }

  lemma SetFrameSets(k: Bytes, v: Bytes)
    requires |k| <= I64_MAX && |v| <= I64_MAX
    ensures CommandOf(SetFrame(k, v)) == Some(Set(k, v)) && MarkerOf(SetFrame(k, v)) == NoMarker
    ensures Logged(SetFrame(k, v)) && !IsPublish(SetFrame(k, v)) && NamesWrite(SetFrame(k, v)) && !IsAdmin(SetFrame(k, v))
    ensures forall s :: Dispatch(SetFrame(k, v), s) == s[k := v]
  {
    assert UpperName(SET).value == SET;
    assert Args(SetFrame(k, v)).value == [SET, k, v];
    assert [SET, k, v][1..] == [k, v];
    MarkerIsNoCommand(SetFrame(k, v));
    forall s ensures Dispatch(SetFrame(k, v), s) == s[k := v] {
      assert After(Set(k, v), 1, s) == Step(Set(k, v), START, After(Set(k, v), 0, s).0);
    }
  }

  lemma SetFrameKeys(k: Bytes, v: Bytes)
    ensures NameOf(SetFrame(k, v)) == Some("SET") && NamedKeys(SetFrame(k, v)) == [k]
  {
    hide KeySpecOf;
    assert UpperName(SET).value == SET;
    SixNames();
    SixSpecs();
    BulkDataOf(SetFrame(k, v).items[1..], [k, v]);
    assert [k, v][..1] == [k];
  }

  /** A marker names no key. */
  lemma MarkerKeys()
    ensures NamedKeys(MULTI_FRAME) == [] && NamedKeys(EXEC_FRAME) == []
  {
    hide WriteName;
    assert UpperName(MULTI).value == MULTI && UpperName(EXEC).value == EXEC;
    assert Text(MULTI) == "MULTI" && Text(EXEC) == "EXEC";
  }

  lemma SetIsKnown()
    ensures !Spoils("SET") && !Bracketing("SET")
  {
  }

  /** One step runs a SET to its end. */
  lemma RunSet(cfg: Config, s: State, c: nat, u: Unit, pos: nat, k: Bytes, v: Bytes)
    requires c < |s.clients| && |s.guards| == SHARD_COUNT && s.clients[c] == Running(u, pos, START)
    requires pos < |Items(u)| && CommandOf(FrameAt(u, pos)) == Some(Set(k, v))
    ensures Reaches(cfg, s, s.(clients := s.clients[c := Appending(u, pos)], store := s.store[k := v]))
  {
    hide Run, Items, CommandOf, FrameAt, Reaches;
    Stay(cfg, s);
    Then(cfg, s, s, Act(c));
    assert ActStep(cfg, s, c) == s.(clients := s.clients[c := Appending(u, pos)], store := s.store[k := v]);
  }

  lemma BeginWrite(cfg: Config, s: State, c: nat, u: Unit)
    requires c < |s.clients| && s.clients[c] == Idle && Submitted(u) && !Aborts(u)
    ensures Reaches(cfg, s, s.(clients := s.clients[c := Locking(Write(u), 0)]))
  {
    hide Run, Reaches, Submitted, Aborts;
    Stay(cfg, s);
    Then(cfg, s, s, Begin(c, StartWrite(u)));
  }

  /** A server started on an empty data directory, but for files of later generations. */
  function Fresh(n: nat, leftover: map<nat, Bytes>): (s: State)
  {
    State(seq(n, _ => Idle), seq(SHARD_COUNT, _ => None), None, map[], [], [], leftover[0 := []], 0, 0, 0,
          map[], map[0 := Gen(0, [])], 0, [], false)
  }

  lemma FreshIsInit(cfg: Config, n: nat, leftover: map<nat, Bytes>)
    requires cfg.base == map[] && cfg.capacity > 0
    ensures Init(cfg, Fresh(n, leftover))
  {
  }

  // ----- whole requests with nobody else moving -----

  const NONE_HELD: seq<Option<nat>> := seq(SHARD_COUNT, _ => None)

  /** Guards taken and dropped again. */
  lemma TakenDropped(want: set<nat>, c: nat)
    ensures Dropped(Taken(NONE_HELD, want, c, 0), want, 0) == NONE_HELD
  {
  }

  lemma SetSection(h: Hash, k: Bytes, v: Bytes)
    requires |k| <= I64_MAX && |v| <= I64_MAX
    ensures var u := Plain(SetFrame(k, v));
            && Submitted(u) && !Aborts(u) && Items(u) == [SetFrame(k, v)] && !Marked(u)
            && StartItem(h, u, 0) == Running(u, 0, START)
            && StartItem(h, u, 1) == Unlocking(Want(h, Write(u)), 0, Quit)
  {
    hide CommandOf, MarkerOf, Want, IsPublish, Wire;
    SetFrameSets(k, v);
  }

  /** One SET, from request to answer. */
  lemma SetAlone(cfg: Config, s: State, c: nat, k: Bytes, v: Bytes) returns (t: State)
    requires c < |s.clients| && s.clients[c] == Idle && s.guards == NONE_HELD && s.queue == [] && cfg.capacity > 0
    requires |k| <= I64_MAX && |v| <= I64_MAX
    ensures Reaches(cfg, s, t) && t == Delivering(cfg, s, SetFrame(k, v)).(store := s.store[k := v])
  {
    hide Run, Reaches, Items, CommandOf, Want, StartItem, SetFrame, Taken, Dropped, Submitted, Aborts, Encode, Delivering;
    var f, u := SetFrame(k, v), Plain(SetFrame(k, v));
    SetSection(cfg.h, k, v);
    SetFrameSets(k, v);
    BeginWrite(cfg, s, c, u);
    var s1 := s.(clients := s.clients[c := Locking(Write(u), 0)]);
    LockAll(cfg, s1, c, Write(u), 0);
    var held := Taken(NONE_HELD, Want(cfg.h, Write(u)), c, 0);
    var s2 := With(s1, c, Running(u, 0, START), held);
    Chain(cfg, s, s1, s2);
    RunSet(cfg, s2, c, u, 0, k, v);
    var s3 := s2.(clients := s2.clients[c := Appending(u, 0)], store := s.store[k := v]);
    Chain(cfg, s, s2, s3);
    t := SetDelivered(cfg, s, s3, c, k, v, held);
    Chain(cfg, s, s3, t);
  }

  lemma SetDelivered(cfg: Config, s: State, s3: State, c: nat, k: Bytes, v: Bytes, held: seq<Option<nat>>) returns (t: State)
    requires c < |s.clients| && s.clients[c] == Idle && s.guards == NONE_HELD && s.queue == [] && cfg.capacity > 0
    requires |k| <= I64_MAX && |v| <= I64_MAX && |held| == SHARD_COUNT
    requires held == Taken(NONE_HELD, Want(cfg.h, Write(Plain(SetFrame(k, v)))), c, 0)
    requires s3 == s.(clients := s.clients[c := Appending(Plain(SetFrame(k, v)), 0)], guards := held, store := s.store[k := v])
    ensures Reaches(cfg, s3, t) && t == Delivering(cfg, s, SetFrame(k, v)).(store := s.store[k := v])
  {
    hide Run, Reaches, Items, CommandOf, Want, StartItem, SetFrame, Taken, Dropped, Submitted, Encode;
    var f, u := SetFrame(k, v), Plain(SetFrame(k, v));
    SetSection(cfg.h, k, v);
    DeliverItem(cfg, s3, c, u, 0);
    assert !Overlaps(s3, c);
    var want := Want(cfg.h, Write(u));
    var s4 := With(Delivering(cfg, s3, f), c, Unlocking(want, 0, Quit), held);
    UnlockAll(cfg, s4, c, want, 0, Quit);
    TakenDropped(want, c);
    t := With(s4, c, Idle, NONE_HELD);
    Chain(cfg, s3, s4, t);
    assert t.clients == s.clients;
  }

  /** BGREWRITEAOF up to the rotation: the image is taken, the log goes to the next generation, the
      manifest still names this one. */
  lemma RotateAlone(cfg: Config, s: State, c: nat) returns (t: State)
    requires c < |s.clients| && s.clients[c] == Idle && s.guards == NONE_HELD && s.rewrite.None? && s.queue == [] && cfg.capacity > 0
    ensures Reaches(cfg, s, t)
    ensures var lead := if s.manifest + 1 in s.files then s.files[s.manifest + 1] else [];
            t == s.(clients := s.clients[c := Replacing(s.manifest, s.store)], rewrite := Some(c),
                    active := s.manifest + 1, files := s.files[s.manifest + 1 := lead], synced := |lead|,
                    gens := s.gens[s.manifest + 1 := Gen(|s.hist|, lead)])
  {
    hide Run, Reaches, Want, Taken;
    var s2 := TakeRewrite(cfg, s, c);
    LockAll(cfg, s2, c, Rewrite, 0);
    WantAll(cfg.h, Rewrite);
    var held := Taken(NONE_HELD, ALL, c, 0);
    var s3 := With(s2, c, ReadingGen(false), held);
    Chain(cfg, s, s2, s3);
    Moves(cfg, s3, c);
    var s4 := With(s3, c, Walking(ForRewrite(s.manifest), 0, map[]), held);
    Chain(cfg, s, s3, s4);
    WalkAll(cfg, s4, c, ForRewrite(s.manifest), 0, map[]);
    var s5 := With(s4, c, Rotating(s.manifest, s.store), held);
    Chain(cfg, s, s4, s5);
    t := RotatedAlone(cfg, s5, c, s.manifest, s.store, held);
    Chain(cfg, s, s5, t);
  }

  lemma WantAll(h: Hash, job: Job)
    requires !job.Write?
    ensures Want(h, job) == ALL
  {
  }

  lemma TakeRewrite(cfg: Config, s: State, c: nat) returns (t: State)
    requires c < |s.clients| && s.clients[c] == Idle && |s.guards| == SHARD_COUNT && s.rewrite.None?
    ensures Reaches(cfg, s, t) && t == s.(clients := s.clients[c := Locking(Rewrite, 0)], rewrite := Some(c))
  {
    hide Run, Reaches;
    Stay(cfg, s);
    Then(cfg, s, s, Begin(c, StartRewrite));
    var s1 := Next(cfg, s, Begin(c, StartRewrite));
    Then(cfg, s, s1, Act(c));
    t := ActStep(cfg, s1, c);
  }

  lemma RotatedAlone(cfg: Config, s: State, c: nat, gen: nat, img: Store, held: seq<Option<nat>>) returns (t: State)
    requires c < |s.clients| && s.clients[c] == Rotating(gen, img) && s.queue == [] && cfg.capacity > 0
    requires s.guards == held == Taken(NONE_HELD, ALL, c, 0)
    ensures Reaches(cfg, s, t)
    ensures var lead := if gen + 1 in s.files then s.files[gen + 1] else [];
            t == s.(clients := s.clients[c := Replacing(gen, img)], guards := NONE_HELD, active := gen + 1,
                    files := s.files[gen + 1 := lead], synced := |lead|, gens := s.gens[gen + 1 := Gen(|s.hist|, lead)])
  {
    hide Run, Reaches, Dropped, Taken;
    var s7 := RotateDrained(cfg, s, c, gen, img);
    UnlockAll(cfg, s7, c, ALL, 0, Replace(gen, img));
    TakenDropped(ALL, c);
    t := With(s7, c, Replacing(gen, img), NONE_HELD);
    Chain(cfg, s, s7, t);
    assert t.clients == s.clients[c := Replacing(gen, img)];
  }

  lemma RotateDrained(cfg: Config, s: State, c: nat, gen: nat, img: Store) returns (t: State)
    requires c < |s.clients| && s.clients[c] == Rotating(gen, img) && |s.guards| == SHARD_COUNT && s.queue == [] && cfg.capacity > 0
    ensures Reaches(cfg, s, t)
    ensures var lead := if gen + 1 in s.files then s.files[gen + 1] else [];
            t == s.(clients := s.clients[c := Unlocking(ALL, 0, Replace(gen, img))], active := gen + 1,
                    files := s.files[gen + 1 := lead], synced := |lead|, gens := s.gens[gen + 1 := Gen(|s.hist|, lead)])
  {
    hide Run, Reaches;
    Stay(cfg, s);
    Then(cfg, s, s, Act(c));
    var s6 := ActStep(cfg, s, c);
    assert s6.queue == [Rotate(gen + 1, c)];
    Then(cfg, s, s6, Drain);
    t := DrainStep(s6);
    assert t.clients == s.clients[c := Unlocking(ALL, 0, Replace(gen, img))];
  }

  /** The rest of BGREWRITEAOF: snapshot, manifest, clean-up. */
  lemma CommitAlone(cfg: Config, s: State, c: nat, gen: nat, img: Store) returns (t: State)
    requires c < |s.clients| && s.clients[c] == Replacing(gen, img) && |s.guards| == SHARD_COUNT
    ensures Reaches(cfg, s, t)
    ensures t == s.(clients := s.clients[c := Idle], rewrite := None, files := s.files - {gen}, manifest := gen + 1,
                    snaps := s.snaps[gen + 1 := Snap(0, img)] - {gen})
  {
    hide Run, Reaches;
    Stay(cfg, s);
    Then(cfg, s, s, Act(c));
    var s1 := ActStep(cfg, s, c);
    Then(cfg, s, s1, Act(c));
    var s2 := ActStep(cfg, s1, c);
    t := CleanUp(cfg, s2, c, gen);
    Chain(cfg, s, s2, t);
    assert t.clients == s.clients[c := Idle];
  }

  lemma CleanUp(cfg: Config, s: State, c: nat, gen: nat) returns (t: State)
    requires c < |s.clients| && s.clients[c] == Deleting(gen) && |s.guards| == SHARD_COUNT
    ensures Reaches(cfg, s, t)
    ensures t == s.(clients := s.clients[c := Idle], rewrite := None, files := s.files - {gen}, snaps := s.snaps - {gen})
  {
    hide Run, Reaches;
    Stay(cfg, s);
    Then(cfg, s, s, Act(c));
    var s3 := ActStep(cfg, s, c);
    Then(cfg, s, s3, Act(c));
    var s4 := ActStep(cfg, s3, c);
    Then(cfg, s, s4, Act(c));
    t := ActStep(cfg, s4, c);
    assert t.clients == s.clients[c := Idle];
  }

  /** SAVE, from request to answer. */
  lemma SaveAlone(cfg: Config, s: State, c: nat) returns (t: State)
    requires c < |s.clients| && s.clients[c] == Idle && s.guards == NONE_HELD && s.rewrite.None? && s.queue == [] && cfg.capacity > 0
    ensures Reaches(cfg, s, t)
    ensures t == s.(snaps := s.snaps[s.manifest := Snap(ActiveLen(s), s.store)], synced := ActiveLen(s))
  {
    hide Run, Reaches, Want, Taken;
    var g, n := s.manifest, ActiveLen(s);
    var s2 := TakeSave(cfg, s, c);
    LockAll(cfg, s2, c, SaveAt(g), 0);
    WantAll(cfg.h, SaveAt(g));
    var held := Taken(NONE_HELD, ALL, c, 0);
    var s3 := With(s2, c, Flushing(g), held);
    Chain(cfg, s, s2, s3);
    var s5 := Flushed(cfg, s3, c, g);
    Chain(cfg, s, s3, s5);
    Moves(cfg, s5, c);
    var s6 := With(s5, c, Walking(ForSave(g, n), 0, map[]), held);
    Chain(cfg, s, s5, s6);
    WalkAll(cfg, s6, c, ForSave(g, n), 0, map[]);
    var s7 := With(s6, c, Unlocking(ALL, 0, StoreSnap(g, n, s.store)), held);
    Chain(cfg, s, s6, s7);
    t := Stored(cfg, s7, c, g, n, s.store, held);
    Chain(cfg, s, s7, t);
    assert t.clients == s.clients;
  }

  lemma TakeSave(cfg: Config, s: State, c: nat) returns (t: State)
    requires c < |s.clients| && s.clients[c] == Idle && |s.guards| == SHARD_COUNT && s.rewrite.None?
    ensures Reaches(cfg, s, t) && t == s.(clients := s.clients[c := Locking(SaveAt(s.manifest), 0)], rewrite := Some(c))
  {
    hide Run, Reaches;
    Stay(cfg, s);
    Then(cfg, s, s, Begin(c, StartSave));
    var s1 := Next(cfg, s, Begin(c, StartSave));
    Then(cfg, s, s1, Act(c));
    var s2 := ActStep(cfg, s1, c);
    Then(cfg, s, s2, Act(c));
    t := ActStep(cfg, s2, c);
    assert t.clients == s.clients[c := Locking(SaveAt(s.manifest), 0)];
  }

  lemma Flushed(cfg: Config, s: State, c: nat, gen: nat) returns (t: State)
    requires c < |s.clients| && s.clients[c] == Flushing(gen) && |s.guards| == SHARD_COUNT && s.queue == [] && cfg.capacity > 0
    ensures Reaches(cfg, s, t) && t == s.(clients := s.clients[c := Measuring(gen)], synced := ActiveLen(s))
  {
    hide Run, Reaches;
    Stay(cfg, s);
    Then(cfg, s, s, Act(c));
    var s1 := ActStep(cfg, s, c);
    assert s1.queue == [Flush(c)];
    Then(cfg, s, s1, Drain);
    t := DrainStep(s1);
    assert t.clients == s.clients[c := Measuring(gen)];
  }

  lemma Stored(cfg: Config, s: State, c: nat, gen: nat, off: nat, img: Store, held: seq<Option<nat>>) returns (t: State)
    requires c < |s.clients| && s.clients[c] == Unlocking(ALL, 0, StoreSnap(gen, off, img))
    requires s.guards == held == Taken(NONE_HELD, ALL, c, 0)
    ensures Reaches(cfg, s, t)
    ensures t == s.(clients := s.clients[c := Idle], guards := NONE_HELD, rewrite := None, snaps := s.snaps[gen := Snap(off, img)])
  {
    hide Run, Reaches, Dropped, Taken;
    UnlockAll(cfg, s, c, ALL, 0, StoreSnap(gen, off, img));
    TakenDropped(ALL, c);
    var s1 := With(s, c, Storing(gen, off, img), NONE_HELD);
    Then(cfg, s, s1, Act(c));
    var s2 := ActStep(cfg, s1, c);
    Then(cfg, s, s2, Act(c));
    t := ActStep(cfg, s2, c);
    assert t.clients == s.clients[c := Idle];
  }
}
