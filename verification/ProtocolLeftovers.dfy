// Runs around BGREWRITEAOF in which a restart does not find what was answered, one for each
// condition the crash theorems carry. crates/server/src/aof.rs:218-235, 622-847; dispatcher.rs:3250-3300.
module ProtocolLeftovers {
  import opened Bytes
  import opened Frames
  import opened Resp
  import opened Commands
  import opened Grouping
  import opened Replay
  import opened CrashAtomicity
  import opened Recovery
  import opened Protocol
  import opened ProtocolLocks
  import opened ProtocolDisk
  import opened ProtocolCrash
  import opened ProtocolSchedules
  import opened ProtocolCounterexamples

  function SetBytes(k: Bytes, v: Bytes): (b: Bytes) { Encode(SetFrame(k, v), Resp2) }

  // ----- a rewrite onto a file an interrupted rewrite left behind -----

  /** BGREWRITEAOF on an otherwise idle server that holds nothing yet. */
  lemma RewriteAlone(always: bool, lead: Bytes) returns (s: State)
    ensures Init(Server(always), Fresh(1, map[1 := lead])) && Reaches(Server(always), Fresh(1, map[1 := lead]), s)
    ensures s == Fresh(1, map[]).(files := map[1 := lead], active := 1, manifest := 1, synced := |lead|,
                                  snaps := map[1 := Snap(0, map[])], gens := map[0 := Gen(0, []), 1 := Gen(0, lead)])
  {
    hide Run, Reaches;
    var cfg, s0 := Server(always), Fresh(1, map[1 := lead]);
    FreshIsInit(cfg, 1, map[1 := lead]);
    var t := RotateAlone(cfg, s0, 0);
    s := CommitAlone(cfg, t, 0, 0, map[]);
    Chain(cfg, s0, t, s);
    assert s.files == map[1 := lead] && s.snaps == map[1 := Snap(0, map[])];
    assert s.clients == Fresh(1, map[]).clients;
  }

  /** Generation 1's file still holds a whole old frame: the rewritten server restarts with a key it
      never had. */
  lemma StaleRewrite(k: Bytes, v: Bytes) returns (s: State)
    requires |k| <= I64_MAX && |v| <= I64_MAX
    ensures Init(Server(false), Fresh(1, map[1 := SetBytes(k, v)])) && Reaches(Server(false), Fresh(1, map[1 := SetBytes(k, v)]), s)
    ensures Quiescent(s) && s.store == map[] && s.hist == [] && s.manifest == s.active == 1
    ensures forall d :: CrashDisk(s, d) ==> Recovered(d).Up? && Recovered(d).store == map[k := v]
  {
    hide Run, Reaches, SetBytes, Recovered, CrashDisk;
    s := RewriteAlone(false, SetBytes(k, v));
    forall d | CrashDisk(s, d) ensures Recovered(d).Up? && Recovered(d).store == map[k := v] {
      StaleReplay(s, d, k, v);
    }
  }

  lemma StaleReplay(s: State, d: Disk, k: Bytes, v: Bytes)
    requires |k| <= I64_MAX && |v| <= I64_MAX && CrashDisk(s, d) && s.manifest == s.active == 1
    requires 1 in s.files && s.files[1] == SetBytes(k, v) && s.synced == |s.files[1]|
    requires 1 in s.snaps && s.snaps[1] == Snap(0, map[])
    ensures Recovered(d).Up? && Recovered(d).store == map[k := v]
  {
    hide Encode, ScanBytes, Dispatch, Wire;
    var f, raw := SetFrame(k, v), d.aofs[1];
    SetFrameSets(k, v);
    assert raw == Encode(f, Resp2) == Encode(f, Resp2) + [] && raw[0..] == raw;
    ScanCons(f, [], None);
    NothingParsed();
    ScanStops([], None);
    assert ScanBytes(raw, None).applied == [f];
    assert Fold(map[], [f]) == Dispatch(f, Fold(map[], [f][..0]));
    assert [f][..0] == [];
  }

  // ----- the same with a torn file -----

  /** Generation 1's file holds the first byte of a frame. Under the fsync-always policy a SET after the
      rewrite is written, fsynced and answered, and no restart ever finds it. */
  lemma TornRewrite(k: Bytes, v: Bytes) returns (s: State)
    requires |k| <= I64_MAX && |v| <= I64_MAX
    ensures Init(Server(true), Fresh(1, map[1 := [42]])) && Reaches(Server(true), Fresh(1, map[1 := [42]]), s)
    ensures Quiescent(s) && s.store == map[k := v] && s.hist == [SetFrame(k, v)] && s.synced == ActiveLen(s)
    ensures s.manifest == s.active == 1
    ensures forall d :: CrashDisk(s, d) ==> Recovered(d).Up? && Recovered(d).store == map[]
  {
    hide Run, Reaches, SetFrame, Encode, Recovered, CrashDisk;
    var cfg, s0 := Server(true), Fresh(1, map[1 := [42]]);
    var t := RewriteAlone(true, [42]);
    s := SetAlone(cfg, t, 0, k, v);
    Chain(cfg, s0, t, s);
    assert s.files == map[1 := [42] + SetBytes(k, v)];
    forall d | CrashDisk(s, d) ensures Recovered(d).Up? && Recovered(d).store == map[] {
      TornReplay(s, d, k, v);
    }
  }

  lemma TornReplay(s: State, d: Disk, k: Bytes, v: Bytes)
    requires CrashDisk(s, d) && s.manifest == s.active == 1
    requires 1 in s.files && s.files[1] == [42] + SetBytes(k, v) && s.synced == |s.files[1]|
    requires 1 in s.snaps && s.snaps[1] == Snap(0, map[])
    ensures Recovered(d).Up? && Recovered(d).store == map[]
  {
    hide Encode, SetFrame;
    var raw := d.aofs[1];
    assert raw == [42] + SetBytes(k, v) && raw[0..] == raw;
    TornHeader(k, v);
    assert Fold(map[], []) == map[];
  }

  /** "**3" opens no array. */
  lemma TornHeader(k: Bytes, v: Bytes)
    ensures ScanBytes([42] + SetBytes(k, v), None) == Scan([], 0, false)
  {
    hide EncodeChildren;
    var f := SetFrame(k, v);
    var body, buf := EncodeChildren(f, Children(f), Resp2), [42] + SetBytes(k, v);
    assert PrintInt(3) == [51];
    assert Encode(f, Resp2) == Header(f, Resp2) + body;
    assert buf == [42] + [42, 51] + CRLF + body;
    LineOf(42, [42, 51], body);
    assert [42, 51][..1] == [42];
    assert ParseDigits([42, 51]).None?;
  }

  // ----- between the rotation and the commit -----

  /** Under the fsync-always policy a SET written, fsynced and answered after a rewrite has rotated the
      log and before it has committed the manifest: no transaction is open anywhere, and a crash at
      that moment loses it. */
  lemma RotationLosesAnswered(k: Bytes, v: Bytes) returns (s: State)
    requires |k| <= I64_MAX && |v| <= I64_MAX
    ensures Init(Server(true), Fresh(2, map[])) && Reaches(Server(true), Fresh(2, map[]), s)
    ensures |s.clients| == 2 && s.clients[1] == Idle && s.queue == [] && s.store == map[k := v] && !s.overlapped
    ensures s.hist == [SetFrame(k, v)] && s.synced == ActiveLen(s) && Bracket(None, s.hist) == Some(None)
    ensures forall d :: CrashDisk(s, d) ==> Recovered(d).Up? && Recovered(d).store == map[]
  {
    hide Run, Reaches, SetFrame, Encode, Recovered, CrashDisk;
    var cfg, s0 := Server(true), Fresh(2, map[]);
    FreshIsInit(cfg, 2, map[]);
    var t := RotateAlone(cfg, s0, 0);
    s := SetAlone(cfg, t, 1, k, v);
    Chain(cfg, s0, t, s);
    assert [] + [SetFrame(k, v)] == [SetFrame(k, v)];
    SetFrameSets(k, v);
    PlainBrackets(SetFrame(k, v));
    forall d | CrashDisk(s, d) ensures Recovered(d).Up? && Recovered(d).store == map[] {
      OldGeneration(s, d);
    }
  }

  lemma OldGeneration(s: State, d: Disk)
    requires CrashDisk(s, d) && s.manifest == 0 && 0 in s.files && s.files[0] == [] && 0 !in s.snaps
    ensures Recovered(d).Up? && Recovered(d).store == map[]
  {
    assert d.aofs[0] == [] && d.aofs[0][0..] == [];
    NothingParsed();
    ScanStops([], None);
    assert Fold(map[], []) == map[];
  }

  // ----- a snapshot offset inside a frame -----

  /** A snapshot whose image is the replay of its own offset's prefix is still no accelerator when the
      offset is not a place where replay would cut: here the whole log is lost with it. */
  lemma MisalignedSnapshot(k: Bytes, v: Bytes)
    requires |k| <= I64_MAX && |v| <= I64_MAX
    ensures var raw := SetBytes(k, v);
            var d := Disk(Missing, map[0 := raw], map[0 := Decodes(1, map[])]);
            && UsesSnapshot(d, 0) && Fold(map[], ScanBytes(raw[..1], None).applied) == map[]
            && Recovered(d).Up? && Recovered(d).store == map[]
            && ReplayFrom(d, 0, 0, map[]).Up? && ReplayFrom(d, 0, 0, map[]).store == map[k := v]
  {
    hide Encode, Dispatch, Wire;
    var f, raw := SetFrame(k, v), SetBytes(k, v);
    SetFrameSets(k, v);
    WireRoundTrip(f, []);
    SecondByte(k, v);
    assert raw == raw + [] && raw[0..] == raw;
    ScanStops(raw[..1], None);
    assert ScanBytes(raw[1..], None) == Scan([], 0, false) by { NotAFrame(raw[1..]); }
    ScanCons(f, [], None);
    NothingParsed();
    ScanStops([], None);
    assert [f][..0] == [] && Fold(map[], [f]) == Dispatch(f, Fold(map[], [f][..0]));
  }

  lemma SecondByte(k: Bytes, v: Bytes)
    ensures |SetBytes(k, v)| > 1 && SetBytes(k, v)[1] == 51
  {
    hide EncodeChildren;
    var f := SetFrame(k, v);
    assert PrintInt(3) == [51];
    assert Encode(f, Resp2) == Header(f, Resp2) + EncodeChildren(f, Children(f), Resp2);
  }

  lemma NotAFrame(buf: Bytes)
    requires buf != [] && buf[0] == 51
    ensures ScanBytes(buf, None) == Scan([], 0, false)
  {
  }
}
