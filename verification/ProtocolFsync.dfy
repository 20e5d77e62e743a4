// What the once-a-second flush makes durable, in every run that has one.
// crates/server/src/connection.rs:65-82, aof.rs:203-209, 283-287.
module ProtocolFsync {
  import opened Bytes
  import opened Frames
  import opened Resp
  import opened Commands
  import opened Grouping
  import opened Replay
  import opened CrashAtomicity
  import opened Recovery
  import opened Protocol
  import opened ProtocolLocks
  import opened ProtocolQueue
  import opened ProtocolDisk
  import opened ProtocolCrash
  import opened ProtocolSchedules
  import opened ProtocolCounterexamples

  /** The first `k` frames ever written are on disk: in the part of the active file known to be fsynced,
      or in a generation closed before it. */
  predicate Durable(s: State, k: nat)
  {
    && s.active in s.gens && k <= |s.hist|
    && (s.gens[s.active].start < k ==>
          |s.gens[s.active].lead| + |EncodeAll(s.hist[s.gens[s.active].start..k])| <= s.synced)
  }

  /** Event `n` of the run is the writer thread taking a flush. */
  predicate FlushesAt(cfg: Config, s0: State, es: seq<Event>, n: nat)
  {
    && n < |es| && es[n] == Drain
    && Run(cfg, s0, es[..n]).Some? && Run(cfg, s0, es[..n]).value.queue != [] && Run(cfg, s0, es[..n]).value.queue[0].Sync?
  }

  lemma FlushDurable(cfg: Config, s: State)
    requires FilesInv(cfg, s) && s.queue != [] && s.queue[0].Sync?
    ensures Durable(DrainStep(s), |s.hist|) && DrainStep(s).hist == s.hist
  {
    hide EncodeAll, SnapOk;
  }

  lemma DrainDurable(cfg: Config, s: State, k: nat)
    requires FilesInv(cfg, s) && s.queue != [] && Durable(s, k)
    ensures Durable(DrainStep(s), k) && |s.hist| <= |DrainStep(s).hist| && DrainStep(s).hist[..|s.hist|] == s.hist
  {
    hide EncodeAll, Encode, SnapOk, Acknowledge;
    var t, start := DrainStep(s), s.gens[s.active].start;
    assert s.hist[..|s.hist|] == s.hist;
    if s.queue[0].Append? || s.queue[0].AppendSync? {
      assert t.hist == s.hist + [s.queue[0].f] && t.active == s.active && t.gens == s.gens;
      if start < k {
        assert t.hist[start..k] == s.hist[start..k];
      }
    }
  }

  lemma {:induction false} DurableKept(cfg: Config, s0: State, es: seq<Event>, n: nat)
    requires Init(cfg, s0) && Run(cfg, s0, es).Some? && FlushesAt(cfg, s0, es, n)
    ensures var k, t := |Run(cfg, s0, es[..n]).value.hist|, Run(cfg, s0, es).value;
            Durable(t, k) && t.hist[..k] == Run(cfg, s0, es[..n]).value.hist
  {
    hide CanAct, ActStep, DrainStep, DiskInv, FilesInv, Durable, Init;
    var front, e := es[..|es| - 1], es[|es| - 1];
    var s, u := Run(cfg, s0, front).value, Run(cfg, s0, es[..n]).value;
    DiskHolds(cfg, s0, front);
    DiskFiles(cfg, s);
    if n == |es| - 1 {
      assert front == es[..n];
      FlushDurable(cfg, s);
      assert u.hist[..|u.hist|] == u.hist;
    } else {
      assert front[..n] == es[..n] && front[n] == es[n];
      DurableKept(cfg, s0, front, n);
      StepDurable(cfg, s, e, |u.hist|);
    }
  }

  lemma StepDurable(cfg: Config, s: State, e: Event, k: nat)
    requires FilesInv(cfg, s) && Enabled(cfg, s, e) && Durable(s, k)
    ensures Durable(Next(cfg, s, e), k) && Next(cfg, s, e).hist[..k] == s.hist[..k]
  {
    hide FilesInv, EncodeAll, CanAct, NextPhase, NextGuards, NextStore, NextQueue, NextReplicas, NextOffset, NextSnaps, Overlaps, DrainStep;
    if e.Drain? {
      DrainDurable(cfg, s, k);
      assert DrainStep(s).hist[..k] == DrainStep(s).hist[..|s.hist|][..k];
    }
  }

  /** In every run: what had been written when the flush was taken is among what survives any later crash,
      while the manifest names the active generation. */
  lemma FlushedSurvives(cfg: Config, s0: State, es: seq<Event>, n: nat, d: Disk)
    requires Init(cfg, s0) && Run(cfg, s0, es).Some? && FlushesAt(cfg, s0, es, n)
    requires Run(cfg, s0, es).value.manifest == Run(cfg, s0, es).value.active && CrashDisk(Run(cfg, s0, es).value, d)
    ensures var k, t := |Run(cfg, s0, es[..n]).value.hist|, Run(cfg, s0, es).value;
            && FileOk(t, t.manifest) && |t.gens[t.manifest].lead| <= |d.aofs[t.manifest]|
            && k <= Survived(t, d) && t.hist[..k] == Run(cfg, s0, es[..n]).value.hist
  {
    hide Run, Init, DiskInv, EncodeAll, CrashDisk, FilesInv, WholeFrames;
    var k, t := |Run(cfg, s0, es[..n]).value.hist|, Run(cfg, s0, es).value;
    DurableKept(cfg, s0, es, n);
    DiskHolds(cfg, s0, es);
    DiskFiles(cfg, t);
    FilesHave(cfg, t);
    FileHas(t, t.active);
    CrashHas(t, d);
    if t.gens[t.active].start < k {
      FsyncedSurvives(cfg, t, d, k);
    } else {
      StartSurvives(cfg, t, d);
    }
  }

  lemma StartSurvives(cfg: Config, s: State, d: Disk)
    requires FilesInv(cfg, s) && CrashDisk(s, d) && s.manifest == s.active
    ensures |s.gens[s.manifest].lead| <= |d.aofs[s.manifest]| && s.gens[s.active].start <= Survived(s, d)
  {
    hide EncodeAll, SnapOk, WholeFrames;
  }

  /** So while transactions have not overlapped, a restart has everything up to any closed point of what was
      written then, whatever was written since. */
  lemma FlushedComesBack(cfg: Config, s0: State, es: seq<Event>, n: nat, d: Disk, closed: nat) returns (m: nat)
    requires Init(cfg, s0) && Run(cfg, s0, es).Some? && FlushesAt(cfg, s0, es, n)
    requires var t := Run(cfg, s0, es).value;
             t.manifest == t.active && NoStaleBytes(t) && CrashDisk(t, d) && !t.overlapped
    requires var u := Run(cfg, s0, es[..n]).value;
             closed <= |u.hist| && Bracket(None, u.hist[..closed]) == Some(None)
    ensures var t := Run(cfg, s0, es).value;
            && closed <= m <= |t.hist| && t.hist[..closed] == Run(cfg, s0, es[..n]).value.hist[..closed]
            && Recovered(d).Up? && Recovered(d).store == Fold(cfg.base, t.hist[..m])
  {
    hide Run, Init, CrashDisk, Fold, Bracket, Recovered, Survived, NoStaleBytes;
    var u, t := Run(cfg, s0, es[..n]).value, Run(cfg, s0, es).value;
    FlushedSurvives(cfg, s0, es, n, d);
    CrashHas(t, d);
    m := CrashRecovery(cfg, s0, es, d);
    assert t.hist[..closed] == t.hist[..|u.hist|][..closed];
    assert t.hist[..Survived(t, d)][..closed] == t.hist[..closed];
    CutIsLast(t.hist[..Survived(t, d)], m, closed);
  }

  lemma CutIsLast(fs: seq<Frame>, m: nat, closed: nat)
    requires IsSafeCut(None, fs, m) && closed <= |fs| && Bracket(None, fs[..closed]) == Some(None)
    ensures closed <= m
  {
  }

  // ----- one SET and one flush -----

  /** A SET that has been answered under the once-a-second policy, and nothing else. */
  lemma SetWritten(k: Bytes, v: Bytes) returns (s: State)
    requires |k| <= I64_MAX && |v| <= I64_MAX
    ensures Init(Server(false), Fresh(1, map[])) && Reaches(Server(false), Fresh(1, map[]), s) && Quiescent(s)
    ensures s == Fresh(1, map[]).(hist := [SetFrame(k, v)], files := map[0 := Encode(SetFrame(k, v), Resp2)],
                                  store := map[k := v], offset := WireLen(SetFrame(k, v)))
  {
    hide Run, Reaches, SetFrame, Encode;
    var cfg, s0 := Server(false), Fresh(1, map[]);
    FreshIsInit(cfg, 1, map[]);
    s := SetAlone(cfg, s0, 0, k, v);
    assert [] + [SetFrame(k, v)] == [SetFrame(k, v)] && [] + Encode(SetFrame(k, v), Resp2) == Encode(SetFrame(k, v), Resp2);
    assert s.files == map[0 := Encode(SetFrame(k, v), Resp2)];
  }

  /** Some crash before the flush loses it. */
  lemma UnflushedSetLost(k: Bytes, v: Bytes) returns (s: State, d: Disk)
    requires |k| <= I64_MAX && |v| <= I64_MAX
    ensures Init(Server(false), Fresh(1, map[])) && Reaches(Server(false), Fresh(1, map[]), s) && Quiescent(s)
    ensures s.store == map[k := v] && CrashDisk(s, d) && Recovered(d).Up? && Recovered(d).store == map[]
  {
    hide Run, Reaches, SetFrame, Encode;
    s := SetWritten(k, v);
    d := Disk(Missing, map[0 := []], map[]);
    assert d.aofs[0][0..] == [];
    NothingParsed();
    ScanStops([], None);
    FoldNothing(map[]);
  }

  /** No crash after it does. */
  lemma FlushedSetFound(k: Bytes, v: Bytes) returns (s: State)
    requires |k| <= I64_MAX && |v| <= I64_MAX
    ensures Init(Server(false), Fresh(1, map[])) && Reaches(Server(false), Fresh(1, map[]), s) && Quiescent(s)
    ensures s.store == map[k := v] && s.hist == [SetFrame(k, v)]
    ensures forall d :: CrashDisk(s, d) ==> Recovered(d).Up? && Recovered(d).store == map[k := v]
  {
    hide Run, Reaches, SetFrame, Encode, CrashDisk, Recovered;
    var cfg, s0 := Server(false), Fresh(1, map[]);
    var s1 := SetWritten(k, v);
    Then(cfg, s0, s1, Tick);
    var s2 := Next(cfg, s1, Tick);
    assert s2.queue == [Sync];
    Then(cfg, s0, s2, Drain);
    s := DrainStep(s2);
    assert s == s1.(synced := |s1.files[0]|);
    forall d | CrashDisk(s, d) ensures Recovered(d).Up? && Recovered(d).store == map[k := v] {
      WholeSetFound(s, d, k, v);
    }
  }

  lemma WholeSetFound(s: State, d: Disk, k: Bytes, v: Bytes)
    requires |k| <= I64_MAX && |v| <= I64_MAX && CrashDisk(s, d) && s.manifest == s.active == 0 && 0 !in s.snaps
    requires 0 in s.files && s.files[0] == Encode(SetFrame(k, v), Resp2) && s.synced == |s.files[0]|
    ensures Recovered(d).Up? && Recovered(d).store == map[k := v]
  {
    hide Encode, ScanBytes, Dispatch, Wire;
    var f, raw := SetFrame(k, v), d.aofs[0];
    SetFrameSets(k, v);
    assert raw == Encode(f, Resp2) + [] && raw[0..] == raw;
    ScanCons(f, [], None);
    NothingParsed();
    ScanStops([], None);
    FoldNothing(map[]);
    FoldSnoc(map[], [], f);
    assert [] + [f] == [f] && ScanBytes(raw, None).applied == [f];
  }
}
