// A crash at any step of any run, and the restart that follows.
// crates/server/src/aof.rs:218-235, 338-344, 750-847; dispatcher.rs:3171-3300.
module ProtocolCrash {
  import opened Bytes
  import opened Frames
  import opened Resp
  import opened Commands
  import opened Grouping
  import opened Replay
  import opened CrashAtomicity
  import opened Recovery
  import opened TornFiles
  import opened Protocol
  import opened ProtocolLocks
  import opened ProtocolQueue
  import opened ProtocolViews
  import opened ProtocolBrackets
  import opened ProtocolDisk

  /** What a crash in state `s` may leave of the files recovery looks at: any cut of the active log
      that keeps its fsynced bytes, the whole of a rotated-out log, and the renamed snapshot and
      manifest as they are. Everything else on the disk is arbitrary. */
  predicate CrashDisk(s: State, d: Disk)
  {
    var g := s.manifest;
    && !d.manifest.Garbled? && Generation(d.manifest) == g
    && g in s.files && g in d.aofs && d.aofs[g] <= s.files[g]
    && (if g == s.active then s.synced <= |d.aofs[g]| else d.aofs[g] == s.files[g])
    && (g in d.snaps <==> g in s.snaps)
    && (g in s.snaps ==> d.snaps[g] == Decodes(s.snaps[g].off, s.snaps[g].img))
  }

  /** A crash is always possible, and one that loses nothing is among the possible ones. */
  lemma CrashPossible(cfg: Config, s: State) returns (d: Disk)
    requires FilesInv(cfg, s)
    ensures CrashDisk(s, d) && d.aofs == s.files
  {
    hide EncodeAll, SnapOk;
    d := Disk(Names(s.manifest), s.files, map g | g in s.snaps :: Decodes(s.snaps[g].off, s.snaps[g].img));
  }

  /** The manifest's snapshot is not older than bytes its file already held when it was opened. */
  predicate NoStaleBytes(s: State)
  {
    s.manifest in s.gens && (s.manifest in s.snaps ==> |s.gens[s.manifest].lead| <= s.snaps[s.manifest].off)
  }

  /** How much of the log survived: the frames lying wholly inside what is left of the file. */
  function Survived(s: State, d: Disk): (e: nat)
    requires s.manifest in s.gens && s.manifest in d.aofs && |s.gens[s.manifest].lead| <= |d.aofs[s.manifest]|
    requires s.gens[s.manifest].start <= End(s, s.manifest) <= |s.hist|
  {
    var Gen(start, lead) := s.gens[s.manifest];
    start + WholeFrames(s.hist[start..End(s, s.manifest)], |d.aofs[s.manifest]| - |lead|)
  }

  lemma {:induction false} WholeFramesSplit(a: seq<Frame>, b: seq<Frame>, n: nat)
    ensures WholeFrames(a + b, |EncodeAll(a)| + n) == |a| + WholeFrames(b, n)
  {
    hide Encode;
    if a == [] {
      assert a + b == b;
    } else {
      assert (a + b)[1..] == a[1..] + b;
      WholeFramesSplit(a[1..], b, n);
    }
  }

  /** The offset replay starts from, and the keyspace it starts with. */
  function HeaderOf(s: State): (off: nat)
  {
    if s.manifest in s.snaps then s.snaps[s.manifest].off else 0
  }

  function ImageOf(s: State): (img: Store)
  {
    if s.manifest in s.snaps then s.snaps[s.manifest].img else map[]
  }

  /** The snapshot, or the empty keyspace when there is none, is a point of the log. */
  lemma StartingPoint(cfg: Config, s: State) returns (cut: nat)
    requires FilesInv(cfg, s) && NoStaleBytes(s)
    ensures OffsetAt(s, s.manifest, cut, HeaderOf(s)) && HeaderOf(s) <= |s.files[s.manifest]|
    ensures s.manifest == s.active ==> HeaderOf(s) <= s.synced
    ensures ImageAt(cfg, s, cut, ImageOf(s))
    ensures s.manifest !in s.snaps ==> cut == 0 && cfg.base == map[] && s.gens[s.manifest] == Gen(0, [])
  {
    hide Fold;
    var g := s.manifest;
    if g in s.snaps {
      var Snap(off, img) := s.snaps[g];
      if FreshOk(cfg, s, g, off, img) {
        cut := s.gens[g].start;
        assert s.hist[cut..cut] == [] && EncodeAll([]) == [];
      } else {
        cut :| OffsetAt(s, g, cut, off) && ImageAt(cfg, s, cut, img);
      }
    } else {
      cut := 0;
      assert s.hist[..0] == [] && s.hist[0..0] == [] && EncodeAll([]) == [];
      BracketNothing(None);
      FoldNothing(map[]);
    }
  }

  /** Cutting a generation's file at or after a point of the log is cutting the log from there. */
  lemma TailOfFile(s: State, g: nat, cut: nat, off: nat, n: nat)
    requires FileOk(s, g) && OffsetAt(s, g, cut, off) && off <= n <= |s.files[g]|
    ensures var tail := s.hist[cut..End(s, g)];
            n - off <= |EncodeAll(tail)| && s.files[g][..n][off..] == EncodeAll(tail)[..n - off]
    ensures s.files[g][..off] == s.gens[g].lead + EncodeAll(s.hist[s.gens[g].start..cut])
    ensures s.gens[g].start + WholeFrames(s.hist[s.gens[g].start..End(s, g)], n - |s.gens[g].lead|)
         == cut + WholeFrames(s.hist[cut..End(s, g)], n - off)
  {
    hide EncodeAll, WholeFrames;
    var start, lead := s.gens[g].start, s.gens[g].lead;
    var a, b := s.hist[start..cut], s.hist[cut..End(s, g)];
    assert a + b == s.hist[start..End(s, g)];
    EncodeAllAppend(a, b);
    assert s.files[g] == lead + (EncodeAll(a) + EncodeAll(b)) == (lead + EncodeAll(a)) + EncodeAll(b);
    CutAfter(lead + EncodeAll(a), EncodeAll(b), n);
    WholeFramesSplit(a, b, n - off);
  }

  lemma CutAfter(x: Bytes, y: Bytes, n: nat)
    requires |x| <= n <= |x + y|
    ensures (x + y)[..n][|x|..] == y[..n - |x|] && (x + y)[..|x|] == x
  {
  }

  /** Recovery from a snapshot and a log whose bytes after the snapshot's offset are a cut log. */
  lemma RecoverTail(d: Disk, g: nat, off: nat, img: Store, tail: seq<Frame>) returns (j: nat)
    requires !d.manifest.Garbled? && Generation(d.manifest) == g && g in d.aofs && off <= |d.aofs[g]|
    requires if g in d.snaps then d.snaps[g] == Decodes(off, img) else off == 0 && img == map[]
    requires (forall i :: 0 <= i < |tail| ==> Wire(tail[i])) && |d.aofs[g]| - off <= |EncodeAll(tail)|
    requires d.aofs[g][off..] == EncodeAll(tail)[..|d.aofs[g]| - off]
    ensures IsSafeCut(None, tail[..WholeFrames(tail, |d.aofs[g]| - off)], j) && j <= |tail|
    ensures Bracket(None, tail[..j]) == Some(None) && off + |EncodeAll(tail[..j])| <= |d.aofs[g]|
    ensures Recovered(d) == Up(Fold(img, tail[..j]), d.(aofs := d.aofs[g := d.aofs[g][..off + |EncodeAll(tail[..j])|]]))
  {
    hide Encode, Fold, Bracket, ScanBytes, WholeFrames, IsSafeCut, Wire;
    j := CutLogReplay(tail, |d.aofs[g]| - off, img);
    SafeCutBound(tail[..WholeFrames(tail, |d.aofs[g]| - off)], j);
    assert d.aofs[g][0..] == d.aofs[g];
  }

  /** The log from the snapshot's point on, as far as the generation goes. */
  function Tail(s: State, cut: nat): (fs: seq<Frame>)
    requires cut <= End(s, s.manifest) <= |s.hist|
  {
    s.hist[cut..End(s, s.manifest)]
  }

  lemma TailReplay(cfg: Config, s: State, d: Disk) returns (cut: nat, j: nat)
    requires FilesInv(cfg, s) && NoStaleBytes(s) && CrashDisk(s, d)
    ensures OffsetAt(s, s.manifest, cut, HeaderOf(s)) && ImageAt(cfg, s, cut, ImageOf(s))
    ensures s.manifest !in s.snaps ==> cut == 0 && cfg.base == map[] && s.gens[s.manifest] == Gen(0, [])
    ensures |s.gens[s.manifest].lead| <= |d.aofs[s.manifest]| && HeaderOf(s) <= |d.aofs[s.manifest]| && j <= |Tail(s, cut)|
    ensures d.aofs[s.manifest] == s.files[s.manifest][..|d.aofs[s.manifest]|]
    ensures IsSafeCut(None, Tail(s, cut)[..WholeFrames(Tail(s, cut), |d.aofs[s.manifest]| - HeaderOf(s))], j)
    ensures Bracket(None, Tail(s, cut)[..j]) == Some(None)
    ensures HeaderOf(s) + |EncodeAll(Tail(s, cut)[..j])| <= |d.aofs[s.manifest]| <= |s.files[s.manifest]|
    ensures Recovered(d) == Up(Fold(ImageOf(s), Tail(s, cut)[..j]), d.(aofs := d.aofs[s.manifest :=
      d.aofs[s.manifest][..HeaderOf(s) + |EncodeAll(Tail(s, cut)[..j])|]]))
  {
    hide Encode, EncodeAll, Fold, Bracket, WholeFrames, IsSafeCut, SnapOk, Recovered, FileOk, ImageAt, Wire, FilesInv, OffsetAt, CrashDisk, Generation;
    CrashHas(s, d);
    FilesHave(cfg, s);
    FileHas(s, s.manifest);
    FilesWire(cfg, s);
    cut := StartingPoint(cfg, s);
    OffsetBounds(s, s.manifest, cut, HeaderOf(s));
    CrashedFile(cfg, s, d, HeaderOf(s));
    TailOfFile(s, s.manifest, cut, HeaderOf(s), |d.aofs[s.manifest]|);
    forall i | 0 <= i < |Tail(s, cut)| ensures Wire(Tail(s, cut)[i]) {
      assert Tail(s, cut)[i] == s.hist[cut + i];
    }
    j := RecoverTail(d, s.manifest, HeaderOf(s), ImageOf(s), Tail(s, cut));
  }

  /** A restart replays the surviving log up to its last safe point and cuts the file there. */
  lemma DiskReplay(cfg: Config, s: State, d: Disk) returns (cut: nat, m: nat)
    requires FilesInv(cfg, s) && NoStaleBytes(s) && CrashDisk(s, d)
    ensures FileOk(s, s.manifest) && |s.gens[s.manifest].lead| <= |d.aofs[s.manifest]|
    ensures s.gens[s.manifest].start <= cut <= m <= Survived(s, d) <= |s.hist|
    ensures OffsetAt(s, s.manifest, cut, HeaderOf(s)) && ImageAt(cfg, s, cut, ImageOf(s))
    ensures s.manifest !in s.snaps ==> cut == 0 && cfg.base == map[] && s.gens[s.manifest] == Gen(0, [])
    ensures IsSafeCut(None, s.hist[cut..Survived(s, d)], m - cut) && Bracket(None, s.hist[cut..m]) == Some(None)
    ensures Recovered(d) == Up(Fold(cfg.base, s.hist[..m]), d.(aofs := d.aofs[s.manifest :=
      s.gens[s.manifest].lead + EncodeAll(s.hist[s.gens[s.manifest].start..m])]))
  {
    hide Encode, EncodeAll, Fold, Bracket, WholeFrames, IsSafeCut, SnapOk, Recovered, FileOk, ImageAt, Wire, FilesInv, OffsetAt, CrashDisk, Generation, HeaderOf, ImageOf;
    CrashHas(s, d);
    var g, off, n := s.manifest, HeaderOf(s), |d.aofs[s.manifest]|;
    FilesHave(cfg, s);
    FileHas(s, g);
    var j;
    cut, j := TailReplay(cfg, s, d);
    m := cut + j;
    OffsetBounds(s, g, cut, off);
    ImageIs(cfg, s, cut, ImageOf(s));
    TailOfFile(s, g, cut, off, n);
    TakeOfSlice(s.hist, cut, End(s, g), WholeFrames(Tail(s, cut), n - off));
    SafeCutBound(s.hist[cut..Survived(s, d)], j);
    TakeOfSlice(s.hist, cut, End(s, g), j);
    assert s.hist[..cut] + s.hist[cut..m] == s.hist[..m];
    FoldAppend(cfg.base, s.hist[..cut], s.hist[cut..m]);
    KeptFile(s, g, cut, off, m, n);
  }

  lemma TakeOfSlice(fs: seq<Frame>, a: nat, b: nat, j: nat)
    requires a <= b <= |fs| && j <= b - a
    ensures fs[a..b][..j] == fs[a..a + j]
  {
  }

  lemma CrashHas(s: State, d: Disk)
    requires CrashDisk(s, d)
    ensures !d.manifest.Garbled? && Generation(d.manifest) == s.manifest && s.manifest in s.files && s.manifest in d.aofs
    ensures s.manifest in d.snaps <==> s.manifest in s.snaps
    ensures s.manifest in s.snaps ==> d.snaps[s.manifest] == Decodes(s.snaps[s.manifest].off, s.snaps[s.manifest].img)
  {
  }

  lemma OffsetBounds(s: State, g: nat, cut: nat, off: nat)
    requires OffsetAt(s, g, cut, off)
    ensures g in s.gens && s.gens[g].start <= cut <= End(s, g) <= |s.hist|
  {
  }

  lemma FilesWire(cfg: Config, s: State)
    requires FilesInv(cfg, s)
    ensures forall i :: 0 <= i < |s.hist| ==> Wire(s.hist[i])
  {
  }

  lemma ImageIs(cfg: Config, s: State, cut: nat, img: Store)
    requires ImageAt(cfg, s, cut, img)
    ensures Closed(s, cut) && img == Fold(cfg.base, s.hist[..cut])
  {
  }

  lemma CrashedFile(cfg: Config, s: State, d: Disk, off: nat)
    requires FilesInv(cfg, s) && CrashDisk(s, d) && off <= |s.files[s.manifest]| && (s.manifest == s.active ==> off <= s.synced)
    ensures var n := |d.aofs[s.manifest]|;
            off <= n <= |s.files[s.manifest]| && d.aofs[s.manifest] == s.files[s.manifest][..n]
            && |s.gens[s.manifest].lead| <= n
  {
    hide EncodeAll, SnapOk;
  }

  lemma SafeCutBound(fs: seq<Frame>, j: nat)
    requires IsSafeCut(None, fs, j)
    ensures j <= |fs|
  {
  }

  lemma CutTwice(x: Bytes, y: Bytes, n: nat)
    requires |x| <= n <= |x + y|
    ensures (x + y)[..n][..|x|] == x
  {
  }

  lemma KeptBytes(lead: Bytes, a: seq<Frame>, b: seq<Frame>, c: seq<Frame>, n: nat)
    requires |lead| + |EncodeAll(a)| + |EncodeAll(b)| <= n <= |lead + EncodeAll((a + b) + c)|
    ensures (lead + EncodeAll((a + b) + c))[..n][..|lead| + |EncodeAll(a)| + |EncodeAll(b)|] == lead + EncodeAll(a + b)
  {
    hide EncodeAll;
    EncodeAllAppend(a, b);
    EncodeAllAppend(a + b, c);
    var x := lead + EncodeAll(a + b);
    assert lead + (EncodeAll(a + b) + EncodeAll(c)) == x + EncodeAll(c);
    CutTwice(x, EncodeAll(c), n);
  }

  lemma KeptFile(s: State, g: nat, cut: nat, off: nat, m: nat, n: nat)
    requires FileOk(s, g) && OffsetAt(s, g, cut, off) && cut <= m <= End(s, g)
    requires off + |EncodeAll(s.hist[cut..m])| <= n <= |s.files[g]|
    ensures s.files[g][..n][..off + |EncodeAll(s.hist[cut..m])|]
         == s.gens[g].lead + EncodeAll(s.hist[s.gens[g].start..m])
  {
    hide EncodeAll;
    var start, e := s.gens[g].start, End(s, g);
    assert s.hist[start..cut] + s.hist[cut..m] == s.hist[start..m] && s.hist[start..m] + s.hist[m..e] == s.hist[start..e];
    KeptBytes(s.gens[g].lead, s.hist[start..cut], s.hist[cut..m], s.hist[m..e], n);
  }

  // ----- what a crash can cost -----

  /** Safe points after a closed position are safe points of the whole log. */
  lemma SafeFromClosed(fs: seq<Frame>, cut: nat, e: nat, m: nat)
    requires cut <= m <= e <= |fs| && Bracket(None, fs[..cut]) == Some(None)
    requires IsSafeCut(None, fs[cut..e], m - cut) && Bracket(None, fs[cut..m]) == Some(None)
    ensures IsSafeCut(None, fs[..e], m)
  {
    hide Bracket;
    forall i | cut <= i <= e ensures Bracket(None, fs[..e][..i]) == Bracket(None, fs[cut..e][..i - cut]) {
      assert fs[..e][..i] == fs[..cut] + fs[cut..e][..i - cut];
      BracketAppend(None, fs[..cut], fs[cut..e][..i - cut]);
    }
    assert fs[cut..m] == fs[cut..e][..m - cut];
    forall i | m < i <= e ensures Bracket(None, fs[..e][..i]) != Some(None) {
      assert Bracket(None, fs[cut..e][..i - cut]) != Some(None);
    }
  }

  /** A crash at any moment of any run: the restarted server holds exactly the keyspace after a
      prefix of the log, and no transaction in half. While transactions have not overlapped, that
      prefix is the longest closed one that survived, and after a rotation that the manifest does
      not name yet it is everything up to the rotation. */
  lemma CrashRecovery(cfg: Config, s0: State, es: seq<Event>, d: Disk) returns (m: nat)
    requires Init(cfg, s0) && Run(cfg, s0, es).Some?
    requires NoStaleBytes(Run(cfg, s0, es).value) && CrashDisk(Run(cfg, s0, es).value, d)
    ensures var s := Run(cfg, s0, es).value;
            && FileOk(s, s.manifest) && |s.gens[s.manifest].lead| <= |d.aofs[s.manifest]|
            && m <= Survived(s, d) <= |s.hist|
            && Recovered(d).Up? && Recovered(d).store == Fold(cfg.base, s.hist[..m])
            && (!s.overlapped ==> IsSafeCut(None, s.hist[..Survived(s, d)], m))
            && (!s.overlapped && s.manifest != s.active ==> s.active in s.gens && m == s.gens[s.active].start)
  {
    hide Run, Init, Fold, Bracket, EncodeAll, IsSafeCut, DiskInv;
    DiskHolds(cfg, s0, es);
    var s, cut := Run(cfg, s0, es).value, 0;
    DiskFiles(cfg, s);
    cut, m := DiskReplay(cfg, s, d);
    ImageIs(cfg, s, cut, ImageOf(s));
    if !s.overlapped {
      SafeFromClosed(s.hist, cut, Survived(s, d), m);
      if s.manifest != s.active {
        RotationClosed(cfg, s);
        WholeOldFile(s, d);
        ClosedIsCut(s.hist[..Survived(s, d)], m);
      }
    }
  }

  lemma DiskFiles(cfg: Config, s: State)
    requires DiskInv(cfg, s)
    ensures FilesInv(cfg, s)
  {
  }

  lemma RotationClosed(cfg: Config, s: State)
    requires DiskInv(cfg, s) && s.manifest != s.active
    ensures s.active in s.gens && Closed(s, s.gens[s.active].start)
  {
    hide Fold, Bracket, EncodeAll, FilesInv, CutOk;
    var c :| 0 <= c < |s.clients| && MidRewrite(s.clients[c]);
    assert DiskOk(cfg, s, s.clients[c]);
  }

  /** A rotated-out log was fsynced whole. */
  lemma WholeOldFile(s: State, d: Disk)
    requires FileOk(s, s.manifest) && s.manifest != s.active && s.active in s.gens && CrashDisk(s, d)
    ensures |s.gens[s.manifest].lead| <= |d.aofs[s.manifest]|
    ensures Survived(s, d) == s.gens[s.active].start
  {
    hide EncodeAll;
    var fs := s.hist[s.gens[s.manifest].start..End(s, s.manifest)];
    assert fs[..|fs|] == fs;
    WholeFramesIsLargest(fs, |EncodeAll(fs)|, |fs|);
  }

  lemma ClosedIsCut(fs: seq<Frame>, m: nat)
    requires IsSafeCut(None, fs, m) && Bracket(None, fs) == Some(None)
    ensures m == |fs|
  {
    assert fs[..|fs|] == fs;
  }

  /** Every frame known to be fsynced lies in what survives. */
  lemma FsyncedSurvives(cfg: Config, s: State, d: Disk, i: nat)
    requires FilesInv(cfg, s) && CrashDisk(s, d) && s.manifest == s.active && s.gens[s.active].start <= i <= |s.hist|
    requires |s.gens[s.active].lead| + |EncodeAll(s.hist[s.gens[s.active].start..i])| <= s.synced
    ensures |s.gens[s.manifest].lead| <= |d.aofs[s.manifest]| && i <= Survived(s, d)
  {
    hide EncodeAll, SnapOk;
    var start := s.gens[s.active].start;
    var fs := s.hist[start..|s.hist|];
    assert fs[..i - start] == s.hist[start..i];
    WholeFramesIsLargest(fs, |d.aofs[s.manifest]| - |s.gens[s.active].lead|, i - start);
  }

  lemma AllSurvives(cfg: Config, s: State, d: Disk)
    requires FilesInv(cfg, s) && CrashDisk(s, d) && s.manifest == s.active && s.synced == ActiveLen(s)
    ensures FileOk(s, s.manifest) && |s.gens[s.manifest].lead| <= |d.aofs[s.manifest]| && Survived(s, d) == |s.hist|
  {
    hide EncodeAll, SnapOk;
    assert s.hist[s.gens[s.active].start..] == s.hist[s.gens[s.active].start..|s.hist|];
    FsyncedSurvives(cfg, s, d, |s.hist|);
  }

  /** A crash that loses no byte of the active log: exactly when everything ever written comes back.
      The log from the snapshot's point on must be closed, and if the manifest does not name the active
      generation yet, nothing may have been written since the rotation. */
  lemma SyncedKeepsAllIff(cfg: Config, s: State, d: Disk) returns (cut: nat, m: nat)
    requires DiskInv(cfg, s) && NoStaleBytes(s) && CrashDisk(s, d) && s.synced == ActiveLen(s)
    ensures OffsetAt(s, s.manifest, cut, HeaderOf(s)) && Closed(s, cut) && cut <= m <= |s.hist|
    ensures Recovered(d).Up? && Recovered(d).store == Fold(cfg.base, s.hist[..m])
    ensures s.active in s.gens
    ensures m == |s.hist| <==>
      Bracket(None, s.hist[cut..]) == Some(None) && (s.manifest == s.active || s.gens[s.active].start == |s.hist|)
  {
    hide Fold, Bracket, EncodeAll, IsSafeCut, DiskInv, SnapOk, CrashDisk, FilesInv, FileOk, Survived, Recovered, OffsetAt, ImageAt;
    DiskFiles(cfg, s);
    FilesHave(cfg, s);
    FileHas(s, s.active);
    FileHas(s, s.manifest);
    CrashHas(s, d);
    cut, m := DiskReplay(cfg, s, d);
    ImageIs(cfg, s, cut, ImageOf(s));
    if s.manifest == s.active {
      AllSurvives(cfg, s, d);
    } else {
      WholeOldFile(s, d);
    }
    if Survived(s, d) == |s.hist| {
      assert s.hist[cut..Survived(s, d)] == s.hist[cut..];
      CutIsClosed(s.hist[cut..], m - cut);
    }
  }

  /** A server at rest whose log is fsynced restarts with everything, and so with the keyspace it had, if
      and only if the log from its last snapshot on is closed. It always is while transactions have not
      overlapped; a SAVE or a rewrite after an overlap closes it again. */
  lemma RestartKeepsAll(cfg: Config, s0: State, es: seq<Event>, d: Disk) returns (cut: nat, m: nat)
    requires Init(cfg, s0) && Run(cfg, s0, es).Some? && Quiescent(Run(cfg, s0, es).value)
    requires var s := Run(cfg, s0, es).value;
             NoStaleBytes(s) && CrashDisk(s, d) && s.synced == ActiveLen(s)
    ensures var s := Run(cfg, s0, es).value;
            && OffsetAt(s, s.manifest, cut, HeaderOf(s)) && cut <= m <= |s.hist|
            && Recovered(d).Up? && Recovered(d).store == Fold(cfg.base, s.hist[..m])
            && (m == |s.hist| <==> Bracket(None, s.hist[cut..]) == Some(None))
            && (m == |s.hist| ==> Recovered(d).store == s.store)
            && (!s.overlapped ==> m == |s.hist|)
  {
    hide Run, Init, Fold, Bracket, EncodeAll, DiskInv, Log, InsideTransaction, CrashDisk, Recovered, OffsetAt;
    var s := Run(cfg, s0, es).value;
    DiskHolds(cfg, s0, es);
    AtRest(cfg, s);
    cut, m := SyncedKeepsAllIff(cfg, s, d);
    assert s.hist[..|s.hist|] == s.hist;
    EmptyQueue(s);
    QuietStreams(cfg, s0, es);
    if !s.overlapped {
      IdleNotInside();
      ReadableLogIff(cfg, s0, es);
      assert s.hist[..cut] + s.hist[cut..] == s.hist;
      BracketAppend(None, s.hist[..cut], s.hist[cut..]);
    }
  }

  lemma AtRest(cfg: Config, s: State)
    requires DiskInv(cfg, s) && Quiescent(s)
    ensures s.manifest == s.active
  {
  }

  // ----- the fsync-always policy -----

  /** Under `Always`, nothing is ever written without being fsynced. */
  predicate SyncedInv(cfg: Config, s: State)
  {
    cfg.always ==> s.synced == ActiveLen(s) && forall i :: 0 <= i < |s.queue| ==> !s.queue[i].Append?
  }

  lemma {:induction false} AlwaysSynced(cfg: Config, s0: State, es: seq<Event>)
    requires Init(cfg, s0) && Run(cfg, s0, es).Some?
    ensures SyncedInv(cfg, Run(cfg, s0, es).value)
  {
    hide CanAct, ActStep, DrainStep, DiskInv;
    if es != [] {
      AlwaysSynced(cfg, s0, es[..|es| - 1]);
      DiskHolds(cfg, s0, es[..|es| - 1]);
      var s, e := Run(cfg, s0, es[..|es| - 1]).value, es[|es| - 1];
      if e.Act? {
        ActSynced(cfg, s, e.c);
      } else if e.Drain? {
        DrainSynced(cfg, s);
      }
    }
  }

  lemma DrainSynced(cfg: Config, s: State)
    requires SyncedInv(cfg, s) && s.queue != []
    ensures SyncedInv(cfg, DrainStep(s))
  {
    hide Encode, Acknowledge, Written;
    assert forall i :: 0 <= i < |s.queue[1..]| ==> s.queue[1..][i] == s.queue[i + 1];
    if s.queue[0].AppendSync? {
      WrittenQueue(s, s.queue[0].f);
    }
  }

  lemma WrittenQueue(s: State, f: Frame)
    requires s.queue != []
    ensures Written(s, f).queue == s.queue[1..]
  {
    hide Encode;
  }

  lemma ActSynced(cfg: Config, s: State, c: nat)
    requires SyncedInv(cfg, s) && DiskInv(cfg, s) && CanAct(cfg, s, c)
    ensures SyncedInv(cfg, ActStep(cfg, s, c))
  {
    hide NextPhase, NextGuards, NextStore, NextReplicas, NextOffset, NextSnaps, Overlaps, EncodeAll, SnapOk;
    assert DiskOk(cfg, s, s.clients[c]);
  }

  /** Under `Always`, a crash at any moment of any run keeps every frame ever written if and only if the
      log from the snapshot's point on is closed and nothing was written between the rotation of a
      rewrite and its commit. */
  lemma AlwaysKeepsAll(cfg: Config, s0: State, es: seq<Event>, d: Disk) returns (cut: nat, m: nat)
    requires Init(cfg, s0) && Run(cfg, s0, es).Some? && cfg.always
    requires NoStaleBytes(Run(cfg, s0, es).value) && CrashDisk(Run(cfg, s0, es).value, d)
    ensures var s := Run(cfg, s0, es).value;
            && s.active in s.gens && OffsetAt(s, s.manifest, cut, HeaderOf(s)) && cut <= m <= |s.hist|
            && Recovered(d).Up? && Recovered(d).store == Fold(cfg.base, s.hist[..m])
            && (m == |s.hist| <==>
                  Bracket(None, s.hist[cut..]) == Some(None) && (s.manifest == s.active || s.gens[s.active].start == |s.hist|))
  {
    hide Run, Init, Fold, Bracket, EncodeAll, DiskInv, CrashDisk, Recovered, OffsetAt;
    AlwaysSynced(cfg, s0, es);
    DiskHolds(cfg, s0, es);
    cut, m := SyncedKeepsAllIff(cfg, Run(cfg, s0, es).value, d);
  }

  lemma CutIsClosed(fs: seq<Frame>, m: nat)
    requires IsSafeCut(None, fs, m)
    ensures m == |fs| <==> Bracket(None, fs) == Some(None)
  {
    assert fs[..|fs|] == fs;
  }

  // ----- what a snapshot on disk stands for -----

  /** Whenever the manifest's generation has a snapshot, its header is a point of the log, its image is
      the replay of exactly the log up to there, and image plus the rest of the log is the whole log. */
  lemma SavedSnapshot(cfg: Config, s0: State, es: seq<Event>) returns (cut: nat)
    requires Init(cfg, s0) && Run(cfg, s0, es).Some? && NoStaleBytes(Run(cfg, s0, es).value)
    requires Run(cfg, s0, es).value.manifest in Run(cfg, s0, es).value.snaps
    ensures var s := Run(cfg, s0, es).value;
            var Snap(off, img) := s.snaps[s.manifest];
            && FileOk(s, s.manifest) && s.gens[s.manifest].start <= cut <= End(s, s.manifest)
            && off <= |s.files[s.manifest]|
            && s.files[s.manifest][..off] == s.gens[s.manifest].lead + EncodeAll(s.hist[s.gens[s.manifest].start..cut])
            && img == Fold(cfg.base, s.hist[..cut])
            && (!s.overlapped ==> Bracket(None, s.hist[..cut]) == Some(None))
            && Fold(img, s.hist[cut..]) == Fold(cfg.base, s.hist)
  {
    hide Run, Init, Fold, Bracket, EncodeAll, DiskInv, FilesInv, FileOk, OffsetAt, WholeFrames;
    DiskHolds(cfg, s0, es);
    var s := Run(cfg, s0, es).value;
    DiskFiles(cfg, s);
    FilesHave(cfg, s);
    FileHas(s, s.manifest);
    cut := StartingPoint(cfg, s);
    OffsetBounds(s, s.manifest, cut, HeaderOf(s));
    TailOfFile(s, s.manifest, cut, HeaderOf(s), HeaderOf(s));
    FoldAppend(cfg.base, s.hist[..cut], s.hist[cut..]);
    assert s.hist[..cut] + s.hist[cut..] == s.hist;
  }

  // ----- a rewrite onto a file that was not empty -----

  /** When the rewritten snapshot is older than what its file already held, recovery replays those bytes
      between the snapshot and the log; and if they stop the reader, it never gets to the log at all.
      `StaleHarmlessIff` says when a leftover does no harm, torn ones included. */
  lemma StaleBytesReplayed(cfg: Config, s: State, d: Disk) returns (m: nat)
    requires FilesInv(cfg, s) && CrashDisk(s, d) && s.manifest == s.active && s.manifest in s.snaps
    requires s.manifest in s.gens && s.snaps[s.manifest].off < |s.gens[s.manifest].lead|
    ensures var Gen(start, lead) := s.gens[s.manifest];
            var scan := ScanBytes(lead, None);
            var replayed := Fold(Fold(cfg.base, s.hist[..start]), scan.applied);
            && start <= m <= |s.hist| && Closed(s, start)
            && (scan.valid == |lead| ==>
                  && Bracket(None, s.hist[start..m]) == Some(None)
                  && Recovered(d).Up? && Recovered(d).store == Fold(replayed, s.hist[start..m]))
            && (Stuck(lead, None) && Bracket(None, s.hist[start..]).Some? ==>
                  if scan.crashed then Recovered(d).Crashed? else Recovered(d).Up? && Recovered(d).store == replayed)
  {
    hide Encode, EncodeAll, Fold, Bracket, ScanBytes, WholeFrames, IsSafeCut, Wire, FilesInv, Stuck;
    FilesHave(cfg, s);
    FileHas(s, s.manifest);
    var g, start, lead := s.manifest, s.gens[s.manifest].start, s.gens[s.manifest].lead;
    IsFresh(cfg, s);
    FilesWire(cfg, s);
    var raw, tail, scan := d.aofs[g], s.hist[start..|s.hist|], ScanBytes(lead, None);
    CrashedFile(cfg, s, d, 0);
    var rest := EncodeAll(tail)[..|raw| - |lead|];
    assert raw == lead + rest;
    forall i | 0 <= i < |tail| ensures Wire(tail[i]) {
      assert tail[i] == s.hist[start + i];
    }
    StaleStart(s, d, s.snaps[g].img);
    m := start;
    if scan.valid == |lead| {
      var j := StaleThenLog(s.snaps[g].img, lead, tail, |raw| - |lead|);
      m := start + j;
      TakeOfSlice(s.hist, start, |s.hist|, j);
    }
    if Stuck(lead, None) && Bracket(None, s.hist[start..]).Some? {
      assert s.hist[start..] == tail;
      StuckScan(lead, None, tail, |raw| - |lead|);
    }
  }

  lemma StaleStart(s: State, d: Disk, img: Store)
    requires CrashDisk(s, d) && s.manifest in s.snaps && s.snaps[s.manifest] == Snap(0, img)
    ensures var scan := ScanBytes(d.aofs[s.manifest], None);
            && Recovered(d).Up? == !scan.crashed && Recovered(d).Crashed? == scan.crashed
            && (Recovered(d).Up? ==> Recovered(d).store == Fold(img, scan.applied))
  {
    hide ScanBytes, Fold;
    assert d.aofs[s.manifest][0..] == d.aofs[s.manifest];
  }

  lemma StaleThenLog(img: Store, lead: Bytes, tail: seq<Frame>, n: nat) returns (j: nat)
    requires ScanBytes(lead, None).valid == |lead| && (forall i :: 0 <= i < |tail| ==> Wire(tail[i])) && n <= |EncodeAll(tail)|
    ensures j <= |tail| && Bracket(None, tail[..j]) == Some(None)
    ensures var scan := ScanBytes(lead + EncodeAll(tail)[..n], None);
            !scan.crashed && Fold(img, scan.applied) == Fold(Fold(img, ScanBytes(lead, None).applied), tail[..j])
  {
    hide Encode, EncodeAll, Fold, Bracket, ScanBytes, WholeFrames, IsSafeCut, Wire;
    var stale, rest := ScanBytes(lead, None).applied, EncodeAll(tail)[..n];
    ScanAppend(lead, rest, None);
    j := CutLogReplay(tail, n, Fold(img, stale));
    SafeCutBound(tail[..WholeFrames(tail, n)], j);
    FoldAppend(img, stale, ScanBytes(rest, None).applied);
  }

  lemma IsFresh(cfg: Config, s: State)
    requires FilesInv(cfg, s) && s.manifest in s.snaps && s.manifest in s.gens && s.snaps[s.manifest].off < |s.gens[s.manifest].lead|
    ensures s.snaps[s.manifest].off == 0 && ImageAt(cfg, s, s.gens[s.manifest].start, s.snaps[s.manifest].img)
  {
    hide EncodeAll, Fold, Bracket;
  }

  // ----- crash after crash -----

  /** What recovery took the snapshot's image for becomes the ground the next life stands on. */
  function NextLife(cfg: Config, s: State, cut: nat): (next: Config)
    requires cut <= |s.hist|
  {
    cfg.(base := Fold(cfg.base, s.hist[..cut]))
  }

  function Restarted(s: State, d: Disk, cut: nat, m: nat, clients: nat): (t: State)
    requires Recovered(d).Up? && s.manifest in Recovered(d).disk.aofs && s.manifest in s.gens
    requires s.gens[s.manifest].start <= cut <= m <= |s.hist|
  {
    var g := s.manifest;
    var files := Recovered(d).disk.aofs;
    State(seq(clients, _ => Idle), seq(SHARD_COUNT, _ => None), None, Recovered(d).store, [], s.hist[cut..m],
          files, |files[g]|, g, g, if g in s.snaps then map[g := s.snaps[g]] else map[],
          map[g := Gen(0, s.gens[g].lead + EncodeAll(s.hist[s.gens[g].start..cut]))], 0, [], false)
  }

  /** The restarted server is again in a state every theorem here starts from, so all of them hold
      of a server that has crashed any number of times. */
  lemma RestartIsInit(cfg: Config, s0: State, es: seq<Event>, d: Disk, clients: nat) returns (cut: nat, m: nat)
    requires Init(cfg, s0) && Run(cfg, s0, es).Some?
    requires NoStaleBytes(Run(cfg, s0, es).value) && CrashDisk(Run(cfg, s0, es).value, d)
    ensures var s := Run(cfg, s0, es).value;
            && Recovered(d).Up? && s.manifest in Recovered(d).disk.aofs && s.manifest in s.gens
            && s.gens[s.manifest].start <= cut <= m <= |s.hist|
            && Init(NextLife(cfg, s, cut), Restarted(s, d, cut, m, clients))
            && Restarted(s, d, cut, m, clients).store == Fold(cfg.base, s.hist[..m])
  {
    hide Run, Fold, Bracket, EncodeAll, IsSafeCut, DiskInv, SnapOk, Recovered, Wire;
    DiskHolds(cfg, s0, es);
    var s := Run(cfg, s0, es).value;
    DiskFiles(cfg, s);
    cut, m := DiskReplay(cfg, s, d);
    ImageIs(cfg, s, cut, ImageOf(s));
    StartsClean(cfg, s0);
    RestartedFile(s, d, cut, m, clients);
    assert s.hist[..cut] + s.hist[cut..m] == s.hist[..m];
    FoldAppend(cfg.base, s.hist[..cut], s.hist[cut..m]);
    RestartedSnap(cfg, s, d, cut, m, clients);
    FilesWire(cfg, s);
    var t := Restarted(s, d, cut, m, clients);
    forall i | 0 <= i < |t.hist| ensures Wire(t.hist[i]) {
      assert t.hist[i] == s.hist[cut + i];
    }
  }

  lemma RestartedFile(s: State, d: Disk, cut: nat, m: nat, clients: nat)
    requires Recovered(d).Up? && s.manifest in Recovered(d).disk.aofs && s.manifest in s.gens
    requires s.gens[s.manifest].start <= cut <= m <= |s.hist|
    requires Recovered(d).disk.aofs[s.manifest] == s.gens[s.manifest].lead + EncodeAll(s.hist[s.gens[s.manifest].start..m])
    ensures var t := Restarted(s, d, cut, m, clients);
            t.files[s.manifest] == t.gens[s.manifest].lead + EncodeAll(t.hist)
  {
    hide EncodeAll, Recovered;
    var start := s.gens[s.manifest].start;
    assert s.hist[start..cut] + s.hist[cut..m] == s.hist[start..m];
    EncodeAllAppend(s.hist[start..cut], s.hist[cut..m]);
  }

  lemma RestartedSnap(cfg: Config, s: State, d: Disk, cut: nat, m: nat, clients: nat)
    requires Recovered(d).Up? && s.manifest in Recovered(d).disk.aofs && s.manifest in s.gens
    requires s.gens[s.manifest].start <= cut <= m <= |s.hist|
    requires OffsetAt(s, s.manifest, cut, HeaderOf(s)) && ImageAt(cfg, s, cut, ImageOf(s))
    requires s.manifest !in s.snaps ==> cut == 0 && cfg.base == map[] && s.gens[s.manifest] == Gen(0, [])
    ensures var t, next := Restarted(s, d, cut, m, clients), NextLife(cfg, s, cut);
            if t.manifest in t.snaps then InitSnap(next, t, t.snaps[t.manifest])
            else next.base == map[] && t.gens[t.manifest].lead == []
  {
    hide Recovered, Bracket;
    var t := Restarted(s, d, cut, m, clients);
    assert t.hist[..0] == [];
    BracketNothing(None);
    NothingEncoded();
    FoldNothing(NextLife(cfg, s, cut).base);
    if s.manifest in s.snaps {
      assert t.gens[t.manifest].lead + EncodeAll(t.hist[..0]) == t.gens[t.manifest].lead;
    } else {
      assert s.hist[..0] == [] && s.hist[0..0] == [];
      FoldNothing(map[]);
    }
  }

  lemma StartsClean(cfg: Config, s0: State)
    requires Init(cfg, s0)
    ensures cfg.capacity > 0
  {
  }
}
