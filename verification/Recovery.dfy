// Startup: which files recovery reads, and what comes back. crates/server/src/aof.rs:622-847.
module Recovery {
  import opened Bytes
  import opened Frames
  import opened Resp
  import opened Commands
  import opened Grouping
  import opened Replay
  import opened CrashAtomicity

  /** The manifest: absent before the first rewrite, one number after. */
  datatype Manifest = Missing | Names(gen: nat) | Garbled

  /** A snapshot file decodes whole or not at all. */
  datatype SnapFile = Undecodable | Decodes(off: nat, img: Store)

  datatype Disk = Disk(manifest: Manifest, aofs: map<nat, Bytes>, snaps: map<nat, SnapFile>)

  /** `Unstartable`: the manifest does not parse. `Crashed`: the parser panicked on the log. */
  datatype Startup = Unstartable | Crashed | Up(store: Store, disk: Disk)

  function Generation(m: Manifest): (g: nat)
  {
    if m.Names? then m.gen else 0
  }

  /** Replaying generation `g`'s log from byte `at` onto `start`; a missing log holds nothing. */
  function ReplayFrom(d: Disk, g: nat, at: nat, start: Store): (r: Startup)
  {
    if g !in d.aofs then Up(start, d)
    else
      var raw := d.aofs[g];
      var from := if at < |raw| then at else |raw|;
      var scan := ScanBytes(raw[from..], None);
      if scan.crashed then Crashed
      else Up(Fold(start, scan.applied), d.(aofs := d.aofs[g := raw[..from + scan.valid]]))
  }

  /** The snapshot is used when it decodes and its offset fits the log, or there is no log. */
  predicate UsesSnapshot(d: Disk, g: nat)
  {
    && g in d.snaps && d.snaps[g].Decodes?
    && (g in d.aofs ==> d.snaps[g].off <= |d.aofs[g]|)
  }

  function Recovered(d: Disk): (r: Startup)
  {
    var g := Generation(d.manifest);
    if d.manifest.Garbled? then Unstartable
    else if UsesSnapshot(d, g) then ReplayFrom(d, g, d.snaps[g].off, d.snaps[g].img)
    else ReplayFrom(d, g, 0, map[])
  }

  /** The data directory. */
  class DataDir {
    var manifest: Manifest
    var aofs: map<nat, Bytes>
    var snaps: map<nat, SnapFile>

    function Contents(): (d: Disk)
      reads this
    {
      Disk(manifest, aofs, snaps)
    }

    /** `replay_with_stats`, truncating the file in place. */
    method ReplayFile(g: nat, startAt: nat, engine: Engine) returns (crashed: bool)
      modifies this`aofs, engine
      ensures var r := ReplayFrom(old(Contents()), g, startAt, old(engine.store));
              if crashed then r.Crashed? else r == Up(engine.store, Contents())
    {
      hide ScanBytes, Fold;
      if g !in aofs {
        return false;
      }
      assert aofs[g][..|aofs[g]|] == aofs[g];
      var commands, replayed, kept;
      commands, replayed, kept, crashed := ReplayWithStats(aofs[g], startAt, engine);
      if !crashed && |kept| < |aofs[g]| {
        aofs := aofs[g := kept];
      }
      assert crashed || aofs == old(aofs)[g := kept];
    }

    /** `recover`. */
    method Recover() returns (r: Startup)
      modifies this`aofs
      ensures r == Recovered(old(Contents()))
      ensures r.Up? ==> Contents() == r.disk
    {
      hide ReplayFrom;
      if manifest.Garbled? {
        return Unstartable;
      }
      var g := if manifest.Names? then manifest.gen else 0;
      var engine := new Engine(map[]);
      var startAt := 0;
      if g in snaps && snaps[g].Decodes? {
        engine.store := snaps[g].img;
        if g !in aofs {
          ReplayNothing(Contents(), g, snaps[g].off, snaps[g].img);
          return Up(engine.store, Contents());
        } else if snaps[g].off > |aofs[g]| {
          var again := new Engine(map[]);
          var dead := ReplayFile(g, 0, again);
          return if dead then Crashed else Up(again.store, Contents());
        }
        startAt := snaps[g].off;
      }
      var crashed := ReplayFile(g, startAt, engine);
      r := if crashed then Crashed else Up(engine.store, Contents());
    }
  }

  lemma ReplayNothing(d: Disk, g: nat, at: nat, start: Store)
    requires g !in d.aofs
    ensures ReplayFrom(d, g, at, start) == Up(start, d)
  {
  }

  // ----- which files decide -----

  /** A snapshot that is missing, does not decode, or claims more of the log than there is, is as good as
      none: the whole log is replayed. */
  lemma UselessSnapshot(d: Disk)
    requires !d.manifest.Garbled? && Generation(d.manifest) in d.aofs
    requires var g := Generation(d.manifest);
             g in d.snaps && d.snaps[g].Decodes? ==> d.snaps[g].off > |d.aofs[g]|
    ensures Recovered(d) == ReplayFrom(d, Generation(d.manifest), 0, map[])
  {
    hide ReplayFrom;
  }

  /** One that does not is where replay starts. */
  lemma UsefulSnapshot(d: Disk)
    requires !d.manifest.Garbled? && Generation(d.manifest) in d.aofs && Generation(d.manifest) in d.snaps
    requires var g := Generation(d.manifest);
             d.snaps[g].Decodes? && d.snaps[g].off <= |d.aofs[g]|
    ensures var g := Generation(d.manifest);
            var scan := ScanBytes(d.aofs[g][d.snaps[g].off..], None);
            if scan.crashed then Recovered(d).Crashed?
            else Recovered(d) == Up(Fold(d.snaps[g].img, scan.applied),
                                    d.(aofs := d.aofs[g := d.aofs[g][..d.snaps[g].off + scan.valid]]))
  {
    hide ScanBytes, Fold;
  }

  /** Without a log the snapshot is everything, and without either there is nothing. */
  lemma NoLog(d: Disk)
    requires !d.manifest.Garbled? && Generation(d.manifest) !in d.aofs
    ensures var g := Generation(d.manifest);
            Recovered(d) == Up(if g in d.snaps && d.snaps[g].Decodes? then d.snaps[g].img else map[], d)
  {
    hide ScanBytes, Fold;
  }

  /** A manifest that is missing stands for generation 0; one that does not parse stops the start. */
  lemma ManifestDecides(d: Disk)
    ensures Recovered(d).Unstartable? <==> d.manifest.Garbled?
    ensures d.manifest.Missing? ==> Recovered(d.(manifest := Names(0))).Crashed? == Recovered(d).Crashed?
    ensures d.manifest.Missing? && Recovered(d).Up? ==>
      Recovered(d.(manifest := Names(0))) == Recovered(d).(disk := Recovered(d).disk.(manifest := Names(0)))
  {
    hide ScanBytes, Fold;
  }

  // ----- the snapshot is only an accelerator -----

  /** A snapshot that says what the log says: its image is the replay of the log's first `off`
      bytes, and `off` is a place where replay would cut. */
  predicate Agrees(raw: Bytes, snap: SnapFile)
  {
    && snap.Decodes? && snap.off <= |raw|
    && ScanBytes(raw[..snap.off], None).valid == snap.off
    && snap.img == Fold(map[], ScanBytes(raw[..snap.off], None).applied)
  }

  /** Recovery with the log present gives the full log's replay, and cuts the same bytes, whenever
      the snapshot is absent, undecodable, past the log's end, or agrees with the log. */
  lemma SnapshotIsAccelerator(d: Disk)
    requires !d.manifest.Garbled? && Generation(d.manifest) in d.aofs
    requires var g := Generation(d.manifest);
             UsesSnapshot(d, g) ==> Agrees(d.aofs[g], d.snaps[g])
    ensures Recovered(d) == ReplayFrom(d, Generation(d.manifest), 0, map[])
  {
    hide ScanBytes, Fold;
    var g := Generation(d.manifest);
    if UsesSnapshot(d, g) {
      var raw, off := d.aofs[g], d.snaps[g].off;
      ScanAppend(raw[..off], raw[off..], None);
      assert raw[..off] + raw[off..] == raw && raw[0..] == raw && raw[|raw|..] == raw[off..][|raw| - off..];
      FoldAppend(map[], ScanBytes(raw[..off], None).applied, ScanBytes(raw[off..], None).applied);
      if off == |raw| {
        assert raw[off..] == [];
      }
    }
  }

  /** The directory with one more snapshot, taken of the log's first bytes `raw`, and `more` logged since. */
  function Snapshotted(d: Disk, raw: Bytes, img: Store, more: Bytes): (r: Disk)
  {
    var g := Generation(d.manifest);
    d.(aofs := d.aofs[g := raw + more], snaps := d.snaps[g := Decodes(|raw|, img)])
  }

  ghost predicate Accelerates(d: Disk, raw: Bytes, img: Store)
  {
    forall more :: Recovered(Snapshotted(d, raw, img, more)) == ReplayFrom(Snapshotted(d, raw, img, more), Generation(d.manifest), 0, map[])
  }

  /** A snapshot gives the full log's replay whatever is logged after it if and only if it agrees with
      the bytes it was taken of: its image is their replay and replay would not cut inside them. */
  lemma AcceleratesIff(d: Disk, raw: Bytes, img: Store)
    requires !d.manifest.Garbled?
    ensures Accelerates(d, raw, img) <==> Agrees(raw, Decodes(|raw|, img))
  {
    hide ScanBytes, Fold, Recovered, ReplayFrom;
    assert raw[..|raw|] == raw;
    if Agrees(raw, Decodes(|raw|, img)) {
      forall more ensures Recovered(Snapshotted(d, raw, img, more))
                       == ReplayFrom(Snapshotted(d, raw, img, more), Generation(d.manifest), 0, map[]) {
        assert (raw + more)[..|raw|] == raw;
        SnapshotIsAccelerator(Snapshotted(d, raw, img, more));
      }
    }
    if Accelerates(d, raw, img) {
      var e := Snapshotted(d, raw, img, []);
      assert Recovered(e) == ReplayFrom(e, Generation(d.manifest), 0, map[]);
      NothingAfter(d, raw, img);
    }
  }

  lemma NothingAfter(d: Disk, raw: Bytes, img: Store)
    requires !d.manifest.Garbled?
    requires var e := Snapshotted(d, raw, img, []);
             Recovered(e) == ReplayFrom(e, Generation(d.manifest), 0, map[])
    ensures ScanBytes(raw, None).valid == |raw| && img == Fold(map[], ScanBytes(raw, None).applied)
  {
    hide ScanBytes, Fold, ReplayFrom, Snapshotted;
    var e, g := Snapshotted(d, raw, img, []), Generation(d.manifest);
    TakenNow(d, raw, img);
    ReplayAll(e, g, |raw|, img);
    ReplayAll(e, g, 0, map[]);
    assert raw[|raw|..] == [] && raw[0..] == raw;
    NothingParsed();
    ScanStops([], None);
    FoldNothing(img);
  }

  lemma TakenNow(d: Disk, raw: Bytes, img: Store)
    requires !d.manifest.Garbled?
    ensures var e, g := Snapshotted(d, raw, img, []), Generation(d.manifest);
            g in e.aofs && e.aofs[g] == raw && Recovered(e) == ReplayFrom(e, g, |raw|, img)
  {
    hide ReplayFrom;
    assert raw + [] == raw;
  }

  /** What a replay from `at` leaves of the log. */
  lemma ReplayAll(e: Disk, g: nat, at: nat, start: Store)
    requires g in e.aofs && at <= |e.aofs[g]|
    ensures var r, scan := ReplayFrom(e, g, at, start), ScanBytes(e.aofs[g][at..], None);
            && r.Up? == !scan.crashed
            && (r.Up? ==> r.store == Fold(start, scan.applied) && g in r.disk.aofs && |r.disk.aofs[g]| == at + scan.valid)
  {
    hide ScanBytes, Fold;
  }

  /** Recovering twice: the second start finds the same keyspace and leaves the disk as it is. */
  lemma RecoverTwice(d: Disk)
    requires Recovered(d).Up?
    ensures Recovered(Recovered(d).disk) == Recovered(d)
  {
    hide ReplayFrom;
    var g := Generation(d.manifest);
    if UsesSnapshot(d, g) {
      ReplayTwice(d, g, d.snaps[g].off, d.snaps[g].img);
    } else {
      ReplayTwice(d, g, 0, map[]);
    }
  }

  lemma ReplayTwice(d: Disk, g: nat, at: nat, start: Store)
    requires ReplayFrom(d, g, at, start).Up? && (g in d.aofs ==> at <= |d.aofs[g]|)
    ensures var e := ReplayFrom(d, g, at, start).disk;
            && ReplayFrom(e, g, at, start) == ReplayFrom(d, g, at, start)
            && e.manifest == d.manifest && e.snaps == d.snaps && (g in e.aofs <==> g in d.aofs)
            && (g in d.aofs ==> at <= |e.aofs[g]| <= |d.aofs[g]|)
  {
    hide ScanBytes, Fold;
    if g in d.aofs {
      var raw, e := d.aofs[g], ReplayFrom(d, g, at, start).disk;
      var kept := e.aofs[g];
      RepairedFile(raw[at..], []);
      assert kept[at..] == raw[at..][..ScanBytes(raw[at..], None).valid];
      assert kept[..|kept|] == kept && e.aofs[g := kept] == e.aofs;
    }
  }
}
