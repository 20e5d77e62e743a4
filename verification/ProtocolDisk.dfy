// What is on disk at every moment: generations, snapshots, the manifest, and the rotation between
// them. crates/server/src/aof.rs:218-235, 338-344, 705-748; dispatcher.rs:3171-3300.
module ProtocolDisk {
  import opened Bytes
  import opened Frames
  import opened Resp
  import opened Commands
  import opened Grouping
  import opened CrashAtomicity
  import opened Protocol
  import opened ProtocolLocks
  import opened ProtocolQueue
  import opened ProtocolViews
  import opened ProtocolReplicas
  import opened ProtocolBrackets

  /** Where in the server's log generation `g`'s file ends. */
  function End(s: State, g: nat): (n: nat)
  {
    if g != s.active && s.active in s.gens then s.gens[s.active].start else |s.hist|
  }

  ghost predicate Closed(s: State, cut: nat)
  {
    cut <= |s.hist| && (!s.overlapped ==> Bracket(None, s.hist[..cut]) == Some(None))
  }

  /** A snapshot image and the log position it is the keyspace of. */
  ghost predicate ImageAt(cfg: Config, s: State, cut: nat, img: Store)
  {
    Closed(s, cut) && img == Fold(cfg.base, s.hist[..cut])
  }

  /** `off` bytes into generation `g`'s file is exactly position `cut` of the log. */
  predicate OffsetAt(s: State, g: nat, cut: nat, off: nat)
  {
    g in s.gens && s.gens[g].start <= cut <= End(s, g) && End(s, g) <= |s.hist|
    && off == |s.gens[g].lead| + |EncodeAll(s.hist[s.gens[g].start..cut])|
  }

  /** SAVE's snapshots: header and image are one consistent cut. */
  ghost predicate CutOk(cfg: Config, s: State, g: nat, off: nat, img: Store)
  {
    exists cut: nat :: OffsetAt(s, g, cut, off) && ImageAt(cfg, s, cut, img)
  }

  /** BGREWRITEAOF's snapshots: the image of the rotation point, with header 0. */
  ghost predicate FreshOk(cfg: Config, s: State, g: nat, off: nat, img: Store)
  {
    g in s.gens && off == 0 && ImageAt(cfg, s, s.gens[g].start, img)
  }

  /** A rewrite that has rotated the log and not committed the manifest yet. */
  predicate MidRewrite(p: Phase)
  {
    (p.Unlocking? && p.fin.Replace?) || p.Replacing? || p.Committing?
  }

  predicate Settled(s: State, gen: nat) { gen == s.manifest == s.active }

  predicate Rotated(s: State, gen: nat)
  {
    gen == s.manifest && s.active == gen + 1 && s.active in s.gens
  }

  ghost predicate FinishOk(cfg: Config, s: State, fin: Finish)
  {
    match fin
    case Quit => true
    case StoreSnap(gen, off, img) => Settled(s, gen) && CutOk(cfg, s, gen, off, img) && off <= s.synced
    case Replace(gen, img) => Rotated(s, gen) && ImageAt(cfg, s, s.gens[s.active].start, img)
  }

  ghost predicate DiskOk(cfg: Config, s: State, p: Phase)
  {
    match p
    case ReadingGen(_) => s.manifest == s.active
    case Locking(job, _) =>
      (job.SaveAt? ==> Settled(s, job.gen)) && (job.Rewrite? ==> s.manifest == s.active)
    case Flushing(gen) => Settled(s, gen)
    case FlushWait(gen) => Settled(s, gen)
    case Measuring(gen) => Settled(s, gen) && s.synced == ActiveLen(s)
    case Walking(why, _, _) =>
      (match why
       case ForSave(gen, off) => Settled(s, gen) && off == ActiveLen(s) && off <= s.synced
       case ForRewrite(gen) => Settled(s, gen)
       case ForPsync(_) => true)
    case Rotating(gen, _) => Settled(s, gen)
    case RotateWait(gen, _) => Settled(s, gen)
    case Unlocking(_, _, fin) => FinishOk(cfg, s, fin)
    case Storing(gen, off, img) => FinishOk(cfg, s, StoreSnap(gen, off, img))
    case Replacing(gen, img) => FinishOk(cfg, s, Replace(gen, img))
    case Committing(gen) =>
      Rotated(s, gen) && s.active in s.snaps && FreshOk(cfg, s, s.active, s.snaps[s.active].off, s.snaps[s.active].img)
    case Deleting(gen) => Settled(s, gen + 1)
    case DeletingSnap(gen) => Settled(s, gen + 1)
    case DropRewrite => s.manifest == s.active
    case _ => true
  }

  /** A generation's file holds what it held when opened, then its stretch of the log. */
  predicate FileOk(s: State, g: nat)
  {
    && g in s.files && g in s.gens && s.gens[g].start <= End(s, g) <= |s.hist|
    && s.files[g] == s.gens[g].lead + EncodeAll(s.hist[s.gens[g].start..End(s, g)])
  }

  /** The manifest's snapshot, if there is one, is a point of the log; if there is none, the file is
      the whole history. */
  ghost predicate SnapOk(cfg: Config, s: State)
  {
    if s.manifest in s.snaps then
      var Snap(off, img) := s.snaps[s.manifest];
      && (CutOk(cfg, s, s.manifest, off, img) || FreshOk(cfg, s, s.manifest, off, img))
      && (s.manifest == s.active ==> off <= s.synced)
      && (s.manifest in s.files ==> off <= |s.files[s.manifest]|)
    else cfg.base == map[] && s.manifest in s.gens && s.gens[s.manifest] == Gen(0, [])
  }

  ghost predicate FilesInv(cfg: Config, s: State)
  {
    && FileOk(s, s.active) && FileOk(s, s.manifest)
    && |s.gens[s.active].lead| <= s.synced <= |s.files[s.active]|
    && (s.manifest == s.active || s.active == s.manifest + 1)
    && SnapOk(cfg, s)
    && forall i :: 0 <= i < |s.hist| ==> Wire(s.hist[i])
  }

  ghost predicate DiskInv(cfg: Config, s: State)
  {
    && FilesInv(cfg, s)
    && (s.manifest != s.active ==> exists c :: 0 <= c < |s.clients| && MidRewrite(s.clients[c]))
    && forall c :: 0 <= c < |s.clients| ==> DiskOk(cfg, s, s.clients[c])
  }

  // ----- growing the log keeps every recorded point -----

  predicate SameDisk(s: State, t: State)
  {
    && t.hist == s.hist && t.files == s.files && t.synced == s.synced && t.active == s.active
    && t.manifest == s.manifest && t.snaps == s.snaps && t.gens == s.gens
    && (s.overlapped ==> t.overlapped)
  }

  lemma ImageKept(cfg: Config, s: State, t: State, cut: nat, img: Store)
    requires ImageAt(cfg, s, cut, img) && (s.overlapped ==> t.overlapped) && |s.hist| <= |t.hist| && t.hist[..|s.hist|] == s.hist
    ensures ImageAt(cfg, t, cut, img)
  {
    assert t.hist[..cut] == t.hist[..|s.hist|][..cut];
  }

  lemma CutKept(cfg: Config, s: State, t: State, g: nat, off: nat, img: Store)
    requires CutOk(cfg, s, g, off, img) && (s.overlapped ==> t.overlapped)
    requires |s.hist| <= |t.hist| && t.hist[..|s.hist|] == s.hist
    requires g in t.gens && t.gens[g] == s.gens[g] && End(s, g) <= End(t, g) <= |t.hist|
    ensures CutOk(cfg, t, g, off, img)
  {
    hide ImageAt, EncodeAll;
    var cut: nat :| OffsetAt(s, g, cut, off) && ImageAt(cfg, s, cut, img);
    ImageKept(cfg, s, t, cut, img);
    SliceOfTake(t.hist, |s.hist|, s.gens[g].start, cut);
    assert OffsetAt(t, g, cut, off);
  }

  lemma SameDiskFiles(cfg: Config, s: State, t: State)
    requires FilesInv(cfg, s) && SameDisk(s, t)
    ensures FilesInv(cfg, t)
  {
    hide Bracket, Fold, EncodeAll;
    if s.manifest in s.snaps {
      var Snap(off, img) := s.snaps[s.manifest];
      assert t.hist[..|s.hist|] == s.hist;
      if CutOk(cfg, s, s.manifest, off, img) {
        CutKept(cfg, s, t, s.manifest, off, img);
      }
    }
  }

  lemma SameDiskPhase(cfg: Config, s: State, t: State, p: Phase)
    requires DiskOk(cfg, s, p) && SameDisk(s, t)
    ensures DiskOk(cfg, t, p)
  {
    hide Bracket, Fold, EncodeAll, CutOk, ImageAt;
    assert t.hist[..|s.hist|] == s.hist;
    forall g, off, img | CutOk(cfg, s, g, off, img) ensures CutOk(cfg, t, g, off, img) {
      CutHas(cfg, s, g, off, img);
      CutKept(cfg, s, t, g, off, img);
    }
    forall cut, img | ImageAt(cfg, s, cut, img) ensures ImageAt(cfg, t, cut, img) {
      ImageKept(cfg, s, t, cut, img);
    }
  }

  lemma CutHas(cfg: Config, s: State, g: nat, off: nat, img: Store)
    requires CutOk(cfg, s, g, off, img)
    ensures g in s.gens && End(s, g) <= |s.hist|
  {
  }

  /** Everything the disk invariant says of a phase is said of the holder of the rewrite lock. */
  lemma OnlyRewriter(cfg: Config, s: State, t: State, p: Phase)
    requires !HoldsRewrite(p)
    ensures DiskOk(cfg, t, p) && !MidRewrite(p)
  {
  }

  // ----- a client's step -----

  /** A phase that changes files, snapshots or the manifest. */
  predicate Touches(p: Phase)
  {
    p.Storing? || p.Replacing? || p.Committing? || p.Deleting? || p.DeletingSnap?
  }

  lemma QuietDisk(cfg: Config, s: State, c: nat)
    requires CanAct(cfg, s, c) && !Touches(s.clients[c])
    ensures SameDisk(s, ActStep(cfg, s, c))
  {
    hide NextPhase, NextGuards, NextStore, NextQueue, NextReplicas, NextOffset, Overlaps;
  }

  /** Taking the rewrite lock finds no half-done rewrite. */
  lemma LockSettles(cfg: Config, s: State)
    requires LockInv(cfg, s) && DiskInv(cfg, s) && s.rewrite.None?
    ensures s.manifest == s.active
  {
  }

  /** The walk SAVE makes under every guard is the keyspace of the whole written log. */
  lemma WalkedImage(cfg: Config, s: State, c: nat)
    requires StreamInv(cfg, s) && BracketInv(s) && c < |s.clients|
    requires s.clients[c].Walking? && s.clients[c].why.ForSave? && s.clients[c].i >= SHARD_COUNT
    ensures ImageAt(cfg, s, |s.hist|, s.clients[c].img)
  {
    hide QueueInv, Holds, Items, Fold, Bracket, Log, ReplicaView;
    assert WaiterOk(s.clients[c], c, s.queue) by { EachWaiter(s, c); }
    EmptyQueue(s);
    assert s.hist[..|s.hist|] == s.hist;
    assert WalkOk(cfg.h, s.clients[c], s.store);
    SameStore(s.clients[c].img, s.store);
    AllGuards(cfg, s, c);
    NobodyInside(cfg, s, c);
  }

  lemma EachWaiter(s: State, c: nat)
    requires QueueInv(s) && c < |s.clients|
    ensures WaiterOk(s.clients[c], c, s.queue)
  {
  }

  /** Holding every guard, a client sees the keyspace the append order describes. */
  lemma AllGuards(cfg: Config, s: State, c: nat)
    requires StreamInv(cfg, s) && c < |s.clients| && HoldsAll(s.clients[c])
    ensures s.store == LogView(cfg, s)
  {
    hide LogView, ReplicaView, Items, QueueInv, WalkInv;
    assert ClientInSync(cfg.h, s.clients[c], s.store, LogView(cfg, s), true);
    forall k ensures Lookup(s.store, k) == Lookup(LogView(cfg, s), k) {
      assert ShardOf(cfg.h, k) in ALL;
    }
    SameStore(s.store, LogView(cfg, s));
  }

  /** ... and no transaction is open in the append order. */
  lemma NobodyInside(cfg: Config, s: State, c: nat)
    requires LockInv(cfg, s) && BracketInv(s) && c < |s.clients| && HoldsAll(s.clients[c])
    ensures !s.overlapped ==> Bracket(None, Log(s)) == Some(None)
  {
    hide LockInv, Bracket, Log, Items;
    forall d | 0 <= d < |s.clients| ensures !InsideTransaction(s.clients[d]) {
      if d != c {
        Alone(cfg, s, c, d);
      }
    }
  }

  lemma SavedCut(cfg: Config, s: State, c: nat)
    requires StreamInv(cfg, s) && BracketInv(s) && DiskInv(cfg, s) && c < |s.clients|
    requires s.clients[c].Walking? && s.clients[c].why.ForSave? && s.clients[c].i >= SHARD_COUNT
    ensures CutOk(cfg, s, s.clients[c].why.gen, s.clients[c].why.off, s.clients[c].img)
  {
    hide StreamInv, BracketInv, ImageAt, EncodeAll;
    WalkedImage(cfg, s, c);
    assert DiskOk(cfg, s, s.clients[c]);
    assert OffsetAt(s, s.clients[c].why.gen, |s.hist|, s.clients[c].why.off);
  }

  lemma OwnQuietDisk(cfg: Config, s: State, c: nat)
    requires StreamInv(cfg, s) && BracketInv(s) && DiskInv(cfg, s) && CanAct(cfg, s, c) && !Touches(s.clients[c])
    ensures DiskOk(cfg, s, NextPhase(cfg, s, c))
    ensures MidRewrite(s.clients[c]) ==> MidRewrite(NextPhase(cfg, s, c))
  {
    hide StreamInv, BracketInv, Want, Items, CommandOf, Step, ShardPart, CutOk, ImageAt, FilesInv, MarkerOf, IsAdmin, FrameAt, Marked, Enter;
    if s.clients[c].Locking? {
      EnterDisk(cfg, s, c);
      return;
    }
    var p := s.clients[c];
    assert DiskOk(cfg, s, p);
    if p.WaitRewrite? {
      StreamLocks(cfg, s);
      LockSettles(cfg, s);
    } else if p.Walking? && p.why.ForSave? && p.i >= SHARD_COUNT {
      SavedCut(cfg, s, c);
    }
  }

  lemma EnterDisk(cfg: Config, s: State, c: nat)
    requires CanAct(cfg, s, c) && s.clients[c].Locking? && DiskOk(cfg, s, s.clients[c])
    ensures DiskOk(cfg, s, NextPhase(cfg, s, c)) && !MidRewrite(s.clients[c])
  {
    hide Want, Items, MarkerOf, IsAdmin, CutOk, ImageAt;
  }

  lemma StreamLocks(cfg: Config, s: State)
    requires StreamInv(cfg, s)
    ensures LockInv(cfg, s) && QueueInv(s)
  {
  }

  lemma ActQuietDisk(cfg: Config, s: State, c: nat)
    requires StreamInv(cfg, s) && BracketInv(s) && DiskInv(cfg, s) && CanAct(cfg, s, c) && !Touches(s.clients[c])
    ensures DiskInv(cfg, ActStep(cfg, s, c))
  {
    hide StreamInv, BracketInv, NextPhase, NextGuards, NextStore, NextQueue, NextReplicas, NextOffset, NextSnaps, Overlaps, FilesInv, DiskOk, MidRewrite;
    var t := ActStep(cfg, s, c);
    QuietDisk(cfg, s, c);
    OwnQuietDisk(cfg, s, c);
    SameDiskFiles(cfg, s, t);
    forall d | 0 <= d < |t.clients| ensures DiskOk(cfg, t, t.clients[d]) {
      SameDiskPhase(cfg, s, t, t.clients[d]);
    }
    if t.manifest != t.active {
      var d :| 0 <= d < |s.clients| && MidRewrite(s.clients[d]);
      assert MidRewrite(t.clients[d]);
    }
  }

  lemma TouchFiles(cfg: Config, s: State, c: nat)
    requires DiskInv(cfg, s) && CanAct(cfg, s, c) && Touches(s.clients[c])
    ensures FilesInv(cfg, ActStep(cfg, s, c)) && DiskOk(cfg, ActStep(cfg, s, c), NextPhase(cfg, s, c))
    ensures ActStep(cfg, s, c).manifest != ActStep(cfg, s, c).active ==> MidRewrite(NextPhase(cfg, s, c))
  {
    hide Bracket, Fold, EncodeAll, NextGuards, NextStore, NextQueue, NextReplicas, NextOffset, Overlaps, CutOk, ImageAt;
    var t, p := ActStep(cfg, s, c), s.clients[c];
    assert DiskOk(cfg, s, p);
    assert t.hist[..|s.hist|] == s.hist;
    forall g, off, img | CutOk(cfg, s, g, off, img) ensures CutOk(cfg, t, g, off, img) {
      CutHas(cfg, s, g, off, img);
      CutKept(cfg, s, t, g, off, img);
    }
    forall cut, img | ImageAt(cfg, s, cut, img) ensures ImageAt(cfg, t, cut, img) {
      ImageKept(cfg, s, t, cut, img);
    }
    if (p.Replacing? || p.Deleting? || p.DeletingSnap?) && s.manifest in s.snaps {
      assert t.snaps[t.manifest] == s.snaps[s.manifest];
    }
  }

  lemma ActTouchDisk(cfg: Config, s: State, c: nat)
    requires LockInv(cfg, s) && DiskInv(cfg, s) && CanAct(cfg, s, c) && Touches(s.clients[c])
    ensures DiskInv(cfg, ActStep(cfg, s, c))
  {
    hide LockInv, NextPhase, NextGuards, NextStore, NextQueue, NextReplicas, NextOffset, NextSnaps, Overlaps, FilesInv, DiskOk, MidRewrite;
    var t := ActStep(cfg, s, c);
    TouchFiles(cfg, s, c);
    assert t.clients[c] == NextPhase(cfg, s, c);
    forall d | 0 <= d < |t.clients| && d != c ensures DiskOk(cfg, t, t.clients[d]) {
      Exclusion(cfg, s, c, d);
      OnlyRewriter(cfg, s, t, s.clients[d]);
    }
  }

  // ----- the writer thread's step -----

  /** A written frame lands at the end of the active file, and of the log. */
  lemma WrittenFile(s: State, f: Frame)
    requires FileOk(s, s.active) && FileOk(s, s.manifest)
    ensures FileOk(Written(s, f), s.active) && FileOk(Written(s, f), s.manifest)
    ensures |Written(s, f).files[s.active]| >= |s.files[s.active]|
  {
    hide Encode, EncodeAll;
    var t, start := Written(s, f), s.gens[s.active].start;
    assert s.hist[start..|s.hist|] + [f] == t.hist[start..|t.hist|];
    EncodeAllAppend(s.hist[start..|s.hist|], [f]);
    OneEncoded(f);
    assert t.files[s.active] == s.gens[s.active].lead + (EncodeAll(s.hist[start..|s.hist|]) + Encode(f, Resp2));
    if s.manifest != s.active {
      assert t.hist[s.gens[s.manifest].start..End(t, s.manifest)] == s.hist[s.gens[s.manifest].start..End(s, s.manifest)];
    }
  }

  lemma OneEncoded(f: Frame)
    ensures EncodeAll([f]) == Encode(f, Resp2)
  {
    hide Encode;
    assert [f][1..] == [] && EncodeAll([]) == [];
  }

  lemma WrittenDisk(cfg: Config, s: State, f: Frame, t: State)
    requires FilesInv(cfg, s) && Wire(f) && t.synced >= s.synced && t == Written(s, f).(synced := t.synced, clients := t.clients)
    requires t.synced <= ActiveLen(t)
    ensures FilesInv(cfg, t)
  {
    hide Bracket, Fold, EncodeAll, CutOk, ImageAt, FileOk, Wire;
    WrittenFile(s, f);
    FileFrame(Written(s, f), t);
    FileHas(s, s.active);
    FileHas(s, s.manifest);
    assert t.hist[..|s.hist|] == s.hist;
    if s.manifest in s.snaps {
      var Snap(off, img) := s.snaps[s.manifest];
      if CutOk(cfg, s, s.manifest, off, img) {
        CutHas(cfg, s, s.manifest, off, img);
        CutKept(cfg, s, t, s.manifest, off, img);
      } else {
        ImageKept(cfg, s, t, s.gens[s.manifest].start, img);
      }
    }
  }

  lemma FileFrame(s: State, t: State)
    requires t == s.(synced := t.synced, clients := t.clients)
    ensures forall g :: FileOk(s, g) ==> FileOk(t, g)
  {
  }

  lemma FileHas(s: State, g: nat)
    requires FileOk(s, g)
    ensures g in s.files && g in s.gens && s.gens[g].start <= End(s, g) <= |s.hist|
  {
  }

  /** While a message is in the queue, nobody relies on the file staying as long as it is. */
  lemma WrittenPhase(cfg: Config, s: State, f: Frame, t: State, p: Phase)
    requires DiskOk(cfg, s, p) && FilesInv(cfg, s)
    requires t == Written(s, f).(synced := t.synced, clients := t.clients) && t.synced >= s.synced
    requires !p.Measuring? && !(p.Walking? && p.why.ForSave?)
    ensures DiskOk(cfg, t, p)
  {
    hide Bracket, Fold, EncodeAll, CutOk, ImageAt;
    assert t.hist[..|s.hist|] == s.hist;
    forall g, off, img | CutOk(cfg, s, g, off, img) ensures CutOk(cfg, t, g, off, img) {
      CutHas(cfg, s, g, off, img);
      CutKept(cfg, s, t, g, off, img);
    }
    forall cut, img | ImageAt(cfg, s, cut, img) ensures ImageAt(cfg, t, cut, img) {
      ImageKept(cfg, s, t, cut, img);
    }
  }

  /** Nobody measures or walks for SAVE while the queue holds a message of a client's. */
  lemma NoMeasuring(s: State, d: nat)
    requires QueueInv(s) && s.queue != [] && !s.queue[0].Sync? && d < |s.clients|
    ensures !s.clients[d].Measuring? && !(s.clients[d].Walking? && s.clients[d].why.ForSave?)
  {
    EachWaiter(s, d);
  }

  lemma HeadOk(s: State)
    requires QueueInv(s) && s.queue != []
    ensures MsgOk(s.clients, s.queue, 0)
  {
  }

  lemma AcknowledgedDisk(cfg: Config, s: State, p: Phase)
    requires DiskOk(cfg, s, p) && !p.FlushWait? && !p.RotateWait?
    ensures DiskOk(cfg, s, Acknowledged(p)) && MidRewrite(Acknowledged(p)) == MidRewrite(p)
  {
  }

  lemma DrainAppendDisk(cfg: Config, s: State)
    requires QueueInv(s) && DiskInv(cfg, s) && s.queue != [] && (s.queue[0].Append? || s.queue[0].AppendSync?)
    ensures DiskInv(cfg, DrainStep(s))
  {
    hide QueueInv, DiskOk, FilesInv, MidRewrite, Acknowledged, Wire;
    var t, f := DrainStep(s), s.queue[0].f;
    HeadOk(s);
    FilesHave(cfg, s);
    WrittenFile(s, f);
    WrittenDisk(cfg, s, f, t);
    forall d | 0 <= d < |t.clients|
      ensures DiskOk(cfg, t, t.clients[d]) && MidRewrite(t.clients[d]) == MidRewrite(s.clients[d])
    {
      NoMeasuring(s, d);
      WrittenPhase(cfg, s, f, t, s.clients[d]);
      if s.queue[0].AppendSync? && d == s.queue[0].c {
        AcknowledgedDisk(cfg, t, s.clients[d]);
      }
    }
    if t.manifest != t.active {
      var d :| 0 <= d < |s.clients| && MidRewrite(s.clients[d]);
      assert MidRewrite(t.clients[d]);
    }
  }

  lemma FilesHave(cfg: Config, s: State)
    requires FilesInv(cfg, s)
    ensures FileOk(s, s.active) && FileOk(s, s.manifest) && s.synced <= |s.files[s.active]|
  {
  }

  /** An fsync of the active file: more of it is known to be on disk. */
  lemma SyncedFiles(cfg: Config, s: State, t: State)
    requires FilesInv(cfg, s) && t == s.(synced := ActiveLen(s), queue := t.queue, clients := t.clients)
    ensures FilesInv(cfg, t)
    ensures forall p :: DiskOk(cfg, s, p) ==> DiskOk(cfg, t, p)
  {
    var u := s.(synced := ActiveLen(s));
    SyncedLonger(cfg, s, u);
    SameDiskFiles(cfg, u, t);
    forall p | DiskOk(cfg, s, p) ensures DiskOk(cfg, t, p) {
      SyncedPhase(cfg, s, u, p);
      SameDiskPhase(cfg, u, t, p);
    }
  }

  lemma SyncedLonger(cfg: Config, s: State, t: State)
    requires FilesInv(cfg, s) && t == s.(synced := ActiveLen(s))
    ensures FilesInv(cfg, t)
  {
    hide Bracket, Fold, EncodeAll, ImageAt;
    if s.manifest in s.snaps {
      var Snap(off, img) := s.snaps[s.manifest];
      SyncedCut(cfg, s, t, s.manifest, off, img);
      ImageSame(cfg, s, t, s.gens[s.manifest].start, img);
    }
  }

  lemma ImageSame(cfg: Config, s: State, t: State, cut: nat, img: Store)
    requires t == s.(synced := t.synced)
    ensures ImageAt(cfg, s, cut, img) == ImageAt(cfg, t, cut, img)
  {
  }

  lemma SyncedCut(cfg: Config, s: State, t: State, g: nat, off: nat, img: Store)
    requires t == s.(synced := t.synced)
    ensures CutOk(cfg, s, g, off, img) == CutOk(cfg, t, g, off, img)
  {
    hide Bracket, Fold, EncodeAll;
    assert t.hist[..|s.hist|] == s.hist && s.hist[..|t.hist|] == t.hist;
    if CutOk(cfg, s, g, off, img) {
      CutKept(cfg, s, t, g, off, img);
    }
    if CutOk(cfg, t, g, off, img) {
      CutKept(cfg, t, s, g, off, img);
    }
  }

  lemma SyncedPhase(cfg: Config, s: State, t: State, p: Phase)
    requires FilesInv(cfg, s) && t == s.(synced := ActiveLen(s)) && DiskOk(cfg, s, p)
    ensures DiskOk(cfg, t, p)
  {
    hide Bracket, Fold, EncodeAll, ImageAt, CutOk;
    forall g, off, img | CutOk(cfg, s, g, off, img) ensures CutOk(cfg, t, g, off, img) {
      SyncedCut(cfg, s, t, g, off, img);
    }
    forall cut, img | ImageAt(cfg, s, cut, img) ensures ImageAt(cfg, t, cut, img) {
      ImageSame(cfg, s, t, cut, img);
    }
  }

  lemma DrainFlushDisk(cfg: Config, s: State)
    requires QueueInv(s) && DiskInv(cfg, s) && s.queue != [] && s.queue[0].Flush?
    ensures DiskInv(cfg, DrainStep(s))
  {
    hide QueueInv, FilesInv, MidRewrite;
    var t, c := DrainStep(s), s.queue[0].c;
    HeadOk(s);
    SyncedFiles(cfg, s, t);
    forall d | 0 <= d < |t.clients| && d != c ensures DiskOk(cfg, t, t.clients[d]) {
      assert DiskOk(cfg, s, s.clients[d]);
    }
    assert DiskOk(cfg, s, s.clients[c]);
    assert DiskOk(cfg, t, t.clients[c]);
  }

  /** The rotation point: the old file is complete, the new one starts where it ends. */
  lemma RotatedFiles(cfg: Config, s: State, t: State, lead: Bytes)
    requires FilesInv(cfg, s) && s.manifest == s.active
    requires t == s.(files := s.files[s.active + 1 := lead], active := s.active + 1, synced := |lead|,
                     gens := s.gens[s.active + 1 := Gen(|s.hist|, lead)], queue := t.queue, clients := t.clients)
    ensures FilesInv(cfg, t)
  {
    hide Bracket, Fold, ImageAt, Wire, CutOk;
    assert t.hist[|s.hist|..|s.hist|] == [] && EncodeAll([]) == [];
    assert lead + [] == lead;
    if s.manifest in s.snaps {
      var Snap(off, img) := s.snaps[s.manifest];
      assert t.hist[..|s.hist|] == s.hist;
      if CutOk(cfg, s, s.manifest, off, img) {
        CutHas(cfg, s, s.manifest, off, img);
        CutKept(cfg, s, t, s.manifest, off, img);
      } else {
        ImageKept(cfg, s, t, s.gens[s.manifest].start, img);
      }
    }
  }

  /** The rotating client's image is the keyspace of the whole written log. */
  lemma RotationImage(cfg: Config, s: State, c: nat)
    requires StreamInv(cfg, s) && BracketInv(s) && c < |s.clients| && s.clients[c].RotateWait?
    requires s.queue != [] && s.queue[0].Rotate? && OnlySyncs(s.queue[1..])
    ensures ImageAt(cfg, s, |s.hist|, s.clients[c].img)
  {
    hide QueueInv, LockInv, ViewInv, WalkInv, Fold, Bracket;
    QueuedCons(s.queue);
    SyncsCarryNothing(s.queue[1..]);
    assert Queued(s.queue) == [];
    assert Log(s) == s.hist && s.hist[..|s.hist|] == s.hist;
    WholeKeyspace(cfg, s, c);
    NobodyInside(cfg, s, c);
  }

  lemma DrainRotateDisk(cfg: Config, s: State)
    requires StreamInv(cfg, s) && BracketInv(s) && DiskInv(cfg, s) && s.queue != [] && s.queue[0].Rotate?
    ensures DiskInv(cfg, DrainStep(s))
  {
    hide StreamInv, LockInv, QueueInv, BracketInv, FilesInv, CutOk, ImageAt;
    var t, c := DrainStep(s), s.queue[0].c;
    StreamLocks(cfg, s);
    HeadOk(s);
    assert DiskOk(cfg, s, s.clients[c]);
    RotatedFiles(cfg, s, t, if s.active + 1 in s.files then s.files[s.active + 1] else []);
    RotationImage(cfg, s, c);
    ImageKept(cfg, s, t, |s.hist|, s.clients[c].img) by { assert t.hist[..|s.hist|] == s.hist; }
    assert DiskOk(cfg, t, t.clients[c]) && MidRewrite(t.clients[c]);
    forall d | 0 <= d < |t.clients| && d != c ensures DiskOk(cfg, t, t.clients[d]) {
      Exclusion(cfg, s, c, d);
      OnlyRewriter(cfg, s, t, s.clients[d]);
    }
  }

  // ----- every run -----

  lemma InitDisk(cfg: Config, s0: State)
    requires Init(cfg, s0)
    ensures DiskInv(cfg, s0)
  {
    hide Bracket, Fold, Wire;
    assert s0.hist[0..|s0.hist|] == s0.hist;
    if s0.manifest in s0.snaps {
      var Snap(off, img) := s0.snaps[s0.manifest];
      InitCut(cfg, s0, off, img);
    }
  }

  lemma InitCut(cfg: Config, s0: State, off: nat, img: Store)
    requires s0.manifest in s0.gens && InitSnap(cfg, s0, Snap(off, img)) && s0.active == s0.manifest && s0.gens[s0.manifest].start == 0
    requires s0.manifest in s0.files && s0.files[s0.manifest] == s0.gens[s0.manifest].lead + EncodeAll(s0.hist)
    ensures CutOk(cfg, s0, s0.manifest, off, img) && off <= |s0.files[s0.manifest]|
  {
    hide Bracket, Fold, EncodeAll;
    var cut: nat :| cut <= |s0.hist| && Bracket(None, s0.hist[..cut]) == Some(None)
      && Snap(off, img) == Snap(|s0.gens[s0.manifest].lead + EncodeAll(s0.hist[..cut])|, Fold(cfg.base, s0.hist[..cut]));
    assert s0.hist[0..cut] == s0.hist[..cut];
    assert OffsetAt(s0, s0.manifest, cut, off) && ImageAt(cfg, s0, cut, img);
    EncodeAllAppend(s0.hist[..cut], s0.hist[cut..]);
    assert s0.hist[..cut] + s0.hist[cut..] == s0.hist;
  }

  lemma BeginDisk(cfg: Config, s: State, c: nat, what: Start)
    requires DiskInv(cfg, s) && Enabled(cfg, s, Begin(c, what))
    ensures DiskInv(cfg, Next(cfg, s, Begin(c, what)))
  {
    hide FilesInv, DiskOk;
    var t := Next(cfg, s, Begin(c, what));
    SameDiskFiles(cfg, s, t);
    forall d | 0 <= d < |t.clients| ensures DiskOk(cfg, t, t.clients[d]) {
      if d == c {
        OnlyRewriter(cfg, s, t, FirstPhase(what));
      } else {
        SameDiskPhase(cfg, s, t, s.clients[d]);
      }
    }
    if t.manifest != t.active {
      var d :| 0 <= d < |s.clients| && MidRewrite(s.clients[d]);
      assert MidRewrite(t.clients[d]);
    }
  }

  /** In every run and at every moment, the disk is: the active generation's file holding the log from
      its rotation point on; the manifest's generation, the active one or the one before it; and a
      snapshot that is the replay of exactly the log prefix it stands for. */
  lemma {:induction false} DiskHolds(cfg: Config, s0: State, es: seq<Event>)
    requires Init(cfg, s0) && Run(cfg, s0, es).Some?
    ensures DiskInv(cfg, Run(cfg, s0, es).value)
  {
    hide StreamInv, LockInv, QueueInv, BracketInv, DiskInv, Init, CanAct;
    if es == [] {
      InitDisk(cfg, s0);
    } else {
      DiskHolds(cfg, s0, es[..|es| - 1]);
      StreamsHold(cfg, s0, es[..|es| - 1]);
      BracketsHold(cfg, s0, es[..|es| - 1]);
      var s, e := Run(cfg, s0, es[..|es| - 1]).value, es[|es| - 1];
      StreamLocks(cfg, s);
      match e
      case Begin(c, what) => BeginDisk(cfg, s, c, what);
      case Act(c) => ActDisk(cfg, s, c);
      case Drain => DrainDisk(cfg, s);
      case Tick => TickDisk(cfg, s);
    }
  }

  lemma ActDisk(cfg: Config, s: State, c: nat)
    requires StreamInv(cfg, s) && BracketInv(s) && DiskInv(cfg, s) && CanAct(cfg, s, c)
    ensures DiskInv(cfg, ActStep(cfg, s, c))
  {
    hide StreamInv, BracketInv, DiskInv, ActStep;
    StreamLocks(cfg, s);
    if Touches(s.clients[c]) {
      ActTouchDisk(cfg, s, c);
    } else {
      ActQuietDisk(cfg, s, c);
    }
  }

  lemma DrainDisk(cfg: Config, s: State)
    requires StreamInv(cfg, s) && BracketInv(s) && DiskInv(cfg, s) && s.queue != []
    ensures DiskInv(cfg, DrainStep(s))
  {
    hide StreamInv, BracketInv, DiskInv, DrainStep;
    StreamLocks(cfg, s);
    match s.queue[0]
    case Flush(_) => DrainFlushDisk(cfg, s);
    case Rotate(_, _) => DrainRotateDisk(cfg, s);
    case Sync => DrainSyncDisk(cfg, s);
    case Append(_) => DrainAppendDisk(cfg, s);
    case AppendSync(_, _) => DrainAppendDisk(cfg, s);
  }

  lemma DrainSyncDisk(cfg: Config, s: State)
    requires DiskInv(cfg, s) && s.queue != [] && s.queue[0].Sync?
    ensures DiskInv(cfg, DrainStep(s))
  {
    hide FilesInv, DiskOk, MidRewrite;
    SyncedFiles(cfg, s, DrainStep(s));
  }

  lemma TickDisk(cfg: Config, s: State)
    requires DiskInv(cfg, s) && Enabled(cfg, s, Tick)
    ensures DiskInv(cfg, Next(cfg, s, Tick))
  {
    hide FilesInv, DiskOk, MidRewrite;
    var t := Next(cfg, s, Tick);
    SameDiskFiles(cfg, s, t);
    forall d | 0 <= d < |t.clients| ensures DiskOk(cfg, t, t.clients[d]) {
      SameDiskPhase(cfg, s, t, s.clients[d]);
    }
  }
}
