// The durability and replication protocol as an interleaved step system.
// crates/server/src/aof.rs (guards, writer thread), dispatcher.rs (dispatch_and_log_gated,
// handle_exec, handle_save, start_rewrite, handle_bgrewriteaof, PUBLISH), connection.rs
// (serve_replica) and replication.rs (registry).
module Protocol {
  import opened Bytes
  import opened Frames
  import opened Names
  import opened Resp
  import opened Commands
  import opened Grouping
  import opened CrashAtomicity

  // ----- state -----

  /** `always`: `FsyncPolicy::Always`. `base`: the keyspace below the first logged frame, empty
      unless an earlier rewrite has moved it into a snapshot. */
  datatype Config = Config(h: Hash, capacity: nat, always: bool, base: Store)

  /** What a guard acquisition is for. */
  datatype Job = Write(u: Unit) | SaveAt(gen: nat) | Rewrite | Psync

  /** Why the keyspace is being walked. */
  datatype Purpose = ForSave(gen: nat, off: nat) | ForRewrite(gen: nat) | ForPsync(off: nat)

  /** What is left to do once the guards are dropped. */
  datatype Finish = Quit | StoreSnap(gen: nat, off: nat, img: Store) | Replace(gen: nat, img: Store)

  /** Where a client thread stands. */
  datatype Phase =
    | Idle
    | WaitRewrite(save: bool)
    | ReadingGen(save: bool)
    | Locking(job: Job, next: nat)
    // a write section, frame by frame: MULTI, the commands, EXEC
    | Running(u: Unit, pos: nat, x: Exec)
    | Appending(u: Unit, pos: nat)
    | Syncing(u: Unit, pos: nat)
    | Counting(u: Unit, pos: nat)
    | Sending(u: Unit, pos: nat)
    // SAVE or BGREWRITEAOF queued in a transaction: a second acquisition inside the first
    | NestedWait(u: Unit, pos: nat)
    | NestedLocking(u: Unit, pos: nat, next: nat)
    // sections over the whole keyspace
    | Flushing(gen: nat)
    | FlushWait(gen: nat)
    | Measuring(gen: nat)
    | Noting
    | Walking(why: Purpose, i: nat, img: Store)
    | Rotating(gen: nat, img: Store)
    | RotateWait(gen: nat, img: Store)
    | Registering(off: nat, img: Store)
    | Unlocking(held: set<nat>, next: nat, fin: Finish)
    // after the guards
    | Storing(gen: nat, off: nat, img: Store)
    | Replacing(gen: nat, img: Store)
    | Committing(gen: nat)
    | Deleting(gen: nat)
    | DeletingSnap(gen: nat)
    | DropRewrite
    // PUBLISH takes no guard at all
    | PubCounting(f: Frame)
    | PubSending(f: Frame)

  /** Messages to the writer thread; `Sync` is the once-a-second flush, sent by nobody's client. */
  datatype Msg = Append(f: Frame) | AppendSync(f: Frame, c: nat) | Flush(c: nat) | Rotate(gen: nat, c: nat) | Sync

  /** A snapshot file: the AOF offset in its header, in bytes, and the keyspace. */
  datatype Snap = Snap(off: nat, img: Store)

  /** An attached follower: the handed-over header and keyspace, and everything sent since.
      `joined` and `drift` are history: the log length and the count error at registration. */
  datatype Replica = Replica(header: nat, blob: Store, sent: seq<Frame>, joined: nat, drift: int)

  /** A generation's file: the bytes it already held when it was opened, and where in the
      server's log its own frames begin. */
  datatype Gen = Gen(start: nat, lead: Bytes)

  datatype State = State(
    clients: seq<Phase>,
    guards: seq<Option<nat>>,
    rewrite: Option<nat>,
    store: Store,
    queue: seq<Msg>,
    hist: seq<Frame>,          // every frame the writer thread has written, oldest first
    files: map<nat, Bytes>,
    synced: nat,               // how many bytes of the active file are known to be on disk
    active: nat,
    manifest: nat,
    snaps: map<nat, Snap>,
    gens: map<nat, Gen>,       // history: where each opened generation begins
    offset: nat,               // master_repl_offset
    replicas: seq<Replica>,
    overlapped: bool           // history: a transaction was opened in the log inside another
  )

  // ----- what a section runs -----

  const SAVE: Bytes := [83, 65, 86, 69]
  const BGREWRITEAOF: Bytes := [66, 71, 82, 69, 87, 82, 73, 84, 69, 65, 79, 70]

  /** `is_save_command`, `is_bgrewriteaof_command`: they take the rewrite lock and every guard. */
  predicate IsAdmin(f: Frame)
  {
    && f.Array? && f.items != [] && f.items[0].Bulk?
    && (UpperName(f.items[0].data) == Some(SAVE) || UpperName(f.items[0].data) == Some(BGREWRITEAOF))
  }

  /** A transaction that names a write is logged between markers; another is not logged at all. */
  predicate Marked(u: Unit)
  {
    u.Transaction? && exists i :: 0 <= i < |u.fs| && NamesWrite(u.fs[i])
  }

  /** What a section goes through, in order. */
  function Items(u: Unit): (r: seq<Frame>)
  {
    if u.Plain? || Marked(u) then UnitFrames(u) else u.fs
  }

  // ----- small projections -----

  const ALL: set<nat> := set i: nat | i < SHARD_COUNT

  function UnionShards(h: Hash, fs: seq<Frame>): (r: set<nat>)
    ensures r <= ALL
    ensures forall i :: 0 <= i < |fs| ==> Shards(h, fs[i]) <= r
  {
    if fs == [] then {} else GuardShards(h, fs[0]) + UnionShards(h, fs[1..])
  }

  /** The guards a section takes: those of the keys its frames name, or every one when they name none. */
  function Want(h: Hash, job: Job): (r: set<nat>)
    ensures r <= ALL && r != {}
  {
    assert 0 in ALL;
    if job.Write? && UnionShards(h, Items(job.u)) != {} then UnionShards(h, Items(job.u))
    else ALL
  }

  function FrameAt(u: Unit, pos: nat): (f: Frame)
    requires pos < |Items(u)|
  {
    Items(u)[pos]
  }

  /** The phase that starts item `pos` of a section, or leaves it. */
  function StartItem(h: Hash, u: Unit, pos: nat): (p: Phase)
    ensures !p.Idle?
  {
    if pos >= |Items(u)| then Unlocking(Want(h, Write(u)), 0, Quit)
    else if MarkerOf(FrameAt(u, pos)) != NoMarker then Appending(u, pos)
    else if IsAdmin(FrameAt(u, pos)) then NestedWait(u, pos)
    else Running(u, pos, START)
  }

  function WireLen(f: Frame): (n: nat) { |Encode(f, Resp2)| }

  function Payload(m: Msg): (r: seq<Frame>)
  {
    match m
    case Append(f) => [f]
    case AppendSync(f, _) => [f]
    case _ => []
  }

  /** Messages somebody waits to see answered. */
  predicate Acks(m: Msg) { m.AppendSync? || m.Flush? || m.Rotate? }

  /** The frames waiting in the writer thread's queue. */
  function Queued(q: seq<Msg>): (r: seq<Frame>)
  {
    if q == [] then [] else Queued(q[..|q| - 1]) + Payload(q[|q| - 1])
  }

  /** The append order: what is in the files, then what is on its way there. */
  function Log(s: State): (r: seq<Frame>) { s.hist + Queued(s.queue) }

  /** A transaction whose MULTI has been appended and whose EXEC has not. */
  predicate InsideTransaction(p: Phase)
  {
    match p
    case Running(u, pos, _) => Marked(u) && 0 < pos
    case Appending(u, pos) => Marked(u) && 0 < pos
    case Syncing(u, pos) => Marked(u) && pos + 1 < |Items(u)|
    case Counting(u, pos) => Marked(u) && pos + 1 < |Items(u)|
    case Sending(u, pos) => Marked(u) && pos + 1 < |Items(u)|
    case NestedWait(u, pos) => Marked(u) && 0 < pos
    case NestedLocking(u, pos, _) => Marked(u) && 0 < pos
    case _ => false
  }

  const PUBLISH: Bytes := [80, 85, 66, 76, 73, 83, 72]

  predicate IsPublish(f: Frame)
  {
    Wire(f) && Args(f).Some? && |Args(f).value| >= 3 && UpperName(Args(f).value[0]) == Some(PUBLISH)
  }

  /** What comes between MULTI and EXEC: a frame without a name, or with one of theirs, is answered at
      once. */
  predicate Queues(f: Frame) { NameOf(f).Some? && !Bracketing(NameOf(f).value) }

  /** What clients submit as a section: one write, or a transaction of anything but PUBLISH. Everything
      else on its own takes no guard and leaves no trace here. */
  predicate Submitted(u: Unit)
  {
    && GoodUnit(u) && (if u.Plain? then NamesWrite(u.f) else forall i :: 0 <= i < |u.fs| ==> Queues(u.fs[i]))
    && forall i :: 0 <= i < |CommandsIn(u)| ==> !IsPublish(CommandsIn(u)[i])
  }

  /** EXEC answers EXECABORT, and takes no guard, when a name was refused on the way into the queue. */
  predicate Aborts(u: Unit)
  {
    u.Transaction? && exists i :: 0 <= i < |u.fs| && NameOf(u.fs[i]).Some? && Spoils(NameOf(u.fs[i]).value)
  }

  /** The wire length of a frame a client has counted into the offset but not sent yet. */
  function Unsent(p: Phase): (n: nat)
  {
    match p
    case Sending(u, pos) => if pos < |Items(u)| then WireLen(FrameAt(u, pos)) else 0
    case PubSending(f) => WireLen(f)
    case _ => 0
  }

  function UnsentTotal(ps: seq<Phase>): (n: nat)
  {
    if ps == [] then 0 else UnsentTotal(ps[..|ps| - 1]) + Unsent(ps[|ps| - 1])
  }

  // ----- steps -----

  datatype Start = StartWrite(u: Unit) | StartSave | StartRewrite | StartPsync | StartPublish(f: Frame)

  /** `Act(c)`: client `c` takes its next step. `Drain`: the writer thread takes a message.
      `Tick`: the once-a-second loop asks for a flush. */
  datatype Event = Begin(c: nat, what: Start) | Act(c: nat) | Drain | Tick

  /** Every logged frame has the command shape; so does a published one. */
  predicate CanStart(what: Start)
  {
    match what
    case StartWrite(u) => Submitted(u)
    case StartPublish(f) => IsPublish(f)
    case _ => true
  }

  function FirstPhase(what: Start): (p: Phase)
  {
    match what
    case StartWrite(u) => if Aborts(u) then Unlocking({}, SHARD_COUNT, Quit) else Locking(Write(u), 0)
    case StartSave => WaitRewrite(true)
    case StartRewrite => WaitRewrite(false)
    case StartPsync => Locking(Psync, 0)
    case StartPublish(f) => PubCounting(f)
  }

  /** A client is blocked by a taken lock, a full queue, or an answer still to come. */
  predicate CanAct(cfg: Config, s: State, c: nat)
  {
    c < |s.clients| && |s.guards| == SHARD_COUNT && match s.clients[c]
    case Idle => false
    case WaitRewrite(_) => s.rewrite.None?
    case Locking(job, next) => next < SHARD_COUNT && next in Want(cfg.h, job) ==> s.guards[next].None?
    case Appending(u, pos) => pos < |Items(u)| && |s.queue| < cfg.capacity
    case NestedWait(_, _) => s.rewrite.None?
    case NestedLocking(_, _, next) => next < SHARD_COUNT && s.guards[next].None?
    case Flushing(_) => |s.queue| < cfg.capacity
    case Rotating(_, _) => |s.queue| < cfg.capacity
    case Syncing(_, _) => false
    case FlushWait(_) => false
    case RotateWait(_, _) => false
    case _ => true
  }

  /** After the last guard of an acquisition. */
  function Enter(h: Hash, job: Job): (p: Phase)
  {
    match job
    case Write(u) => StartItem(h, u, 0)
    case SaveAt(gen) => Flushing(gen)
    case Rewrite => ReadingGen(false)
    case Psync => Noting
  }

  function AfterWalk(why: Purpose, img: Store): (p: Phase)
  {
    match why
    case ForSave(gen, off) => Unlocking(ALL, 0, StoreSnap(gen, off, img))
    case ForRewrite(gen) => Rotating(gen, img)
    case ForPsync(off) => Registering(off, img)
  }

  function AfterUnlock(fin: Finish): (p: Phase)
  {
    match fin
    case Quit => Idle
    case StoreSnap(gen, off, img) => Storing(gen, off, img)
    case Replace(gen, img) => Replacing(gen, img)
  }

  /** The entries of one shard. */
  function ShardPart(h: Hash, s: Store, i: nat): (r: Store)
  {
    map k | k in s && ShardOf(h, k) == i :: s[k]
  }

  function ActiveLen(s: State): (n: nat)
  {
    if s.active in s.files then |s.files[s.active]| else 0
  }

  function NextPhase(cfg: Config, s: State, c: nat): (p: Phase)
    requires CanAct(cfg, s, c)
  {
    match s.clients[c]
    case Idle => Idle
    case WaitRewrite(save) => if save then ReadingGen(true) else Locking(Rewrite, 0)
    case ReadingGen(save) => if save then Locking(SaveAt(s.manifest), 0) else Walking(ForRewrite(s.manifest), 0, map[])
    case Locking(job, next) => if next < SHARD_COUNT then Locking(job, next + 1) else Enter(cfg.h, job)
    case Running(u, pos, x) =>
      if pos >= |Items(u)| || CommandOf(FrameAt(u, pos)).None? then StartItem(cfg.h, u, pos + 1)
      else (match Step(CommandOf(FrameAt(u, pos)).value, x, s.store).1
            case Continue(x') => Running(u, pos, x')
            case Done => Appending(u, pos)
            case Refused => StartItem(cfg.h, u, pos + 1))
    case Appending(u, pos) => if cfg.always then Syncing(u, pos) else Counting(u, pos)
    case Counting(u, pos) => Sending(u, pos)
    case Sending(u, pos) => StartItem(cfg.h, u, pos + 1)
    case NestedWait(u, pos) => NestedLocking(u, pos, 0)
    case NestedLocking(u, pos, next) => NestedLocking(u, pos, next + 1)
    case Flushing(gen) => FlushWait(gen)
    case Measuring(gen) =>
      Walking(ForSave(gen, ActiveLen(s)), 0, map[])
    case Noting => Walking(ForPsync(s.offset), 0, map[])
    case Walking(why, i, img) =>
      if i < SHARD_COUNT then Walking(why, i + 1, img + ShardPart(cfg.h, s.store, i)) else AfterWalk(why, img)
    case Rotating(gen, img) => RotateWait(gen, img)
    case Registering(_, _) => Unlocking(ALL, 0, Quit)
    case Unlocking(held, next, fin) => if next < SHARD_COUNT then Unlocking(held, next + 1, fin) else AfterUnlock(fin)
    case Storing(_, _, _) => DropRewrite
    case Replacing(gen, _) => Committing(gen)
    case Committing(gen) => Deleting(gen)
    case Deleting(gen) => DeletingSnap(gen)
    case DeletingSnap(_) => DropRewrite
    case DropRewrite => Idle
    case PubCounting(f) => PubSending(f)
    case PubSending(_) => Idle
    case Syncing(u, pos) => Syncing(u, pos)
    case FlushWait(gen) => FlushWait(gen)
    case RotateWait(gen, img) => RotateWait(gen, img)
  }

  function NextGuards(cfg: Config, s: State, c: nat): (g: seq<Option<nat>>)
    requires CanAct(cfg, s, c)
    ensures |g| == SHARD_COUNT
  {
    match s.clients[c]
    case Locking(job, next) =>
      if next < SHARD_COUNT && next in Want(cfg.h, job) then s.guards[next := Some(c)] else s.guards
    case NestedLocking(_, _, next) => s.guards[next := Some(c)]
    case Unlocking(held, next, _) =>
      if next < SHARD_COUNT && next in held then s.guards[next := None] else s.guards
    case _ => s.guards
  }

  function NextStore(cfg: Config, s: State, c: nat): (r: Store)
    requires CanAct(cfg, s, c)
  {
    match s.clients[c]
    case Running(u, pos, x) =>
      if pos >= |Items(u)| || CommandOf(FrameAt(u, pos)).None? then s.store
      else Step(CommandOf(FrameAt(u, pos)).value, x, s.store).0
    case _ => s.store
  }

  function NextQueue(cfg: Config, s: State, c: nat): (q: seq<Msg>)
    requires CanAct(cfg, s, c)
  {
    match s.clients[c]
    case Appending(u, pos) =>
      s.queue + [if cfg.always then AppendSync(FrameAt(u, pos), c) else Msg.Append(FrameAt(u, pos))]
    case Flushing(_) => s.queue + [Flush(c)]
    case Rotating(gen, _) => s.queue + [Rotate(gen + 1, c)]
    case _ => s.queue
  }

  /** `broadcast`: one more frame on every registered channel. */
  function SendAll(rs: seq<Replica>, f: Frame): (r: seq<Replica>)
    ensures |r| == |rs| && forall i :: 0 <= i < |rs| ==> r[i] == rs[i].(sent := rs[i].sent + [f])
  {
    if rs == [] then [] else SendAll(rs[..|rs| - 1], f) + [rs[|rs| - 1].(sent := rs[|rs| - 1].sent + [f])]
  }

  function NextReplicas(s: State, p: Phase): (r: seq<Replica>)
  {
    match p
    case Sending(u, pos) => if pos < |Items(u)| then SendAll(s.replicas, FrameAt(u, pos)) else s.replicas
    case PubSending(f) => SendAll(s.replicas, f)
    case Registering(off, img) =>
      s.replicas + [Replica(off, img, [], |Log(s)|, off + UnsentTotal(s.clients) - s.offset)]
    case _ => s.replicas
  }

  function NextOffset(s: State, p: Phase): (n: nat)
  {
    match p
    case Counting(u, pos) => if pos < |Items(u)| then s.offset + WireLen(FrameAt(u, pos)) else s.offset
    case PubCounting(f) => s.offset + WireLen(f)
    case _ => s.offset
  }

  function NextSnaps(s: State, p: Phase): (r: map<nat, Snap>)
  {
    match p
    case Storing(gen, off, img) => s.snaps[gen := Snap(off, img)]
    case Replacing(gen, img) => s.snaps[gen + 1 := Snap(0, img)]
    case DeletingSnap(gen) => s.snaps - {gen}
    case _ => s.snaps
  }

  /** A MULTI appended while some other transaction is open in the log. */
  predicate Overlaps(s: State, c: nat)
  {
    && c < |s.clients| && s.clients[c].Appending? && Marked(s.clients[c].u) && s.clients[c].pos == 0
    && exists d :: 0 <= d < |s.clients| && d != c && InsideTransaction(s.clients[d])
  }

  function ActStep(cfg: Config, s: State, c: nat): (s': State)
    requires CanAct(cfg, s, c)
  {
    var p := s.clients[c];
    s.(clients := s.clients[c := NextPhase(cfg, s, c)],
       guards := NextGuards(cfg, s, c),
       rewrite := if p.WaitRewrite? || p.NestedWait? then Some(c) else if p.DropRewrite? then None else s.rewrite,
       store := NextStore(cfg, s, c),
       queue := NextQueue(cfg, s, c),
       files := if p.Deleting? then s.files - {p.gen} else s.files,
       manifest := if p.Committing? then p.gen + 1 else s.manifest,
       snaps := NextSnaps(s, p),
       offset := NextOffset(s, p),
       replicas := NextReplicas(s, p),
       overlapped := s.overlapped || Overlaps(s, c))
  }

  /** The answer the writer thread gives a waiting client. */
  function Acknowledged(p: Phase): (r: Phase)
  {
    match p
    case Syncing(u, pos) => Counting(u, pos)
    case FlushWait(gen) => Measuring(gen)
    case RotateWait(gen, img) => Unlocking(ALL, 0, Replace(gen, img))
    case _ => p
  }

  function Acknowledge(ps: seq<Phase>, c: nat): (r: seq<Phase>)
    ensures |r| == |ps|
  {
    if c < |ps| then ps[c := Acknowledged(ps[c])] else ps
  }

  function Written(s: State, f: Frame): (s': State)
  {
    var file := if s.active in s.files then s.files[s.active] else [];
    s.(queue := s.queue[if s.queue == [] then 0 else 1..],
       hist := s.hist + [f],
       files := s.files[s.active := file + Encode(f, Resp2)])
  }

  /** One message: `Rotate` keeps whatever the new file already holds. */
  function DrainStep(s: State): (s': State)
    requires s.queue != []
  {
    match s.queue[0]
    case Append(f) => Written(s, f)
    case AppendSync(f, c) =>
      var t := Written(s, f);
      t.(synced := ActiveLen(t), clients := Acknowledge(s.clients, c))
    case Flush(c) =>
      s.(queue := s.queue[1..], synced := ActiveLen(s), clients := Acknowledge(s.clients, c))
    case Sync => s.(queue := s.queue[1..], synced := ActiveLen(s))
    case Rotate(gen, c) =>
      var lead := if gen in s.files then s.files[gen] else [];
      s.(queue := s.queue[1..], files := s.files[gen := lead], active := gen, synced := |lead|,
         gens := s.gens[gen := Gen(|s.hist|, lead)], clients := Acknowledge(s.clients, c))
  }

  predicate Enabled(cfg: Config, s: State, e: Event)
  {
    match e
    case Begin(c, what) => c < |s.clients| && s.clients[c].Idle? && CanStart(what)
    case Act(c) => CanAct(cfg, s, c)
    case Drain => s.queue != []
    case Tick => |s.queue| < cfg.capacity
  }

  function Next(cfg: Config, s: State, e: Event): (s': State)
    requires Enabled(cfg, s, e)
  {
    match e
    case Begin(c, what) => s.(clients := s.clients[c := FirstPhase(what)])
    case Act(c) => ActStep(cfg, s, c)
    case Drain => DrainStep(s)
    case Tick => s.(queue := s.queue + [Sync])
  }

  // ----- runs -----

  /** A server that has just recovered: its file ends with every bracket closed and its keyspace
      is what the file says. Files of later generations may be left over from a crash. */
  predicate Init(cfg: Config, s: State)
  {
    && (forall c :: 0 <= c < |s.clients| ==> s.clients[c].Idle?)
    && s.guards == seq(SHARD_COUNT, _ => None) && s.rewrite.None? && s.queue == [] && s.replicas == []
    && s.active == s.manifest && s.manifest in s.files && s.manifest in s.gens && s.gens[s.manifest].start == 0
    && s.files[s.manifest] == s.gens[s.manifest].lead + EncodeAll(s.hist)
    && (forall i :: 0 <= i < |s.hist| ==> Wire(s.hist[i]))
    && Bracket(None, s.hist) == Some(None) && s.store == Fold(cfg.base, s.hist)
    && (if s.manifest in s.snaps then InitSnap(cfg, s, s.snaps[s.manifest])
        else cfg.base == map[] && s.gens[s.manifest].lead == [])
    && s.synced == |s.files[s.manifest]| && !s.overlapped && cfg.capacity > 0
  }

  /** A snapshot of some closed point of the file. */
  predicate InitSnap(cfg: Config, s: State, snap: Snap)
    requires s.manifest in s.gens
  {
    exists cut: nat :: cut <= |s.hist| && Bracket(None, s.hist[..cut]) == Some(None)
      && snap == Snap(|s.gens[s.manifest].lead + EncodeAll(s.hist[..cut])|, Fold(cfg.base, s.hist[..cut]))
  }

  /** The state after a run of events; `None` when one of them could not happen. */
  function Run(cfg: Config, s0: State, es: seq<Event>): (r: Option<State>)
  {
    if es == [] then Some(s0)
    else match Run(cfg, s0, es[..|es| - 1])
      case None => None
      case Some(t) => if Enabled(cfg, t, es[|es| - 1]) then Some(Next(cfg, t, es[|es| - 1])) else None
  }

  /** No client is in the middle of anything. */
  predicate Quiescent(s: State)
  {
    s.queue == [] && forall c :: 0 <= c < |s.clients| ==> s.clients[c].Idle?
  }
}
