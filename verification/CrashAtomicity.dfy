// What replay makes of a log cut at any byte, and of a file it has already repaired.
module CrashAtomicity {
  import opened Bytes
  import opened Frames
  import opened Resp
  import opened Commands
  import opened Grouping
  import opened Replay

  // ----- logs the server wrote -----

  /** The shape of every logged frame: an array of bulk strings. */
  predicate Wire(f: Frame)
  {
    && f.Array? && |f.items| <= I64_MAX
    && forall i :: 0 <= i < |f.items| ==> f.items[i].Bulk? && |f.items[i].data| <= I64_MAX
  }

  function EncodeAll(fs: seq<Frame>): (r: Bytes)
  {
    if fs == [] then [] else Encode(fs[0], Resp2) + EncodeAll(fs[1..])
  }

  lemma NothingEncoded()
    ensures EncodeAll([]) == []
  {
  }

  lemma WireRoundTrip(f: Frame, rest: Bytes)
    requires Wire(f)
    ensures ParseFrame(Encode(f, Resp2) + rest) == Parsed(f, |Encode(f, Resp2)|)
    ensures forall n :: 0 <= n < |Encode(f, Resp2)| ==> ParseFrame(Encode(f, Resp2)[..n]).Incomplete?
  {
    hide ParseFrame, Encode;
    assert Flatten(f).items == f.items;
    RoundTrip(f, Resp2, rest);
    forall n | 0 <= n < |Encode(f, Resp2)| ensures ParseFrame(Encode(f, Resp2)[..n]).Incomplete? {
      PrefixIncomplete(f, Resp2, n);
    }
  }

  lemma {:induction false} EncodeAllAppend(a: seq<Frame>, b: seq<Frame>)
    ensures EncodeAll(a + b) == EncodeAll(a) + EncodeAll(b)
  {
    hide Encode;
    if a == [] {
      assert a + b == b;
    } else {
      assert (a + b)[1..] == a[1..] + b;
      EncodeAllAppend(a[1..], b);
    }
  }

  /** How many of `fs` lie wholly inside the first `n` bytes of their encoding. */
  function WholeFrames(fs: seq<Frame>, n: nat): (j: nat)
    ensures j <= |fs|
  {
    if fs == [] || |Encode(fs[0], Resp2)| > n then 0
    else 1 + WholeFrames(fs[1..], n - |Encode(fs[0], Resp2)|)
  }

  /** `WholeFrames` is the largest such number. */
  lemma {:induction false} WholeFramesIsLargest(fs: seq<Frame>, n: nat, i: nat)
    requires i <= |fs|
    ensures |EncodeAll(fs[..i])| <= n <==> i <= WholeFrames(fs, n)
    decreases |fs|
  {
    hide Encode;
    if i > 0 {
      assert fs[..i][1..] == fs[1..][..i - 1];
      if |Encode(fs[0], Resp2)| <= n {
        WholeFramesIsLargest(fs[1..], n - |Encode(fs[0], Resp2)|, i - 1);
      }
    }
  }

  /** The same scan, on frames instead of bytes. */
  function ScanFrames(fs: seq<Frame>, p: Pending): (r: Scan)
  {
    if fs == [] then Scan([], 0, false)
    else match Feed(p, fs[0])
      case Malformed => Scan([], 0, false)
      case Fed(q, out) => Join(q, out, |Encode(fs[0], Resp2)|, ScanFrames(fs[1..], q))
  }

  /** The scan of a buffer that starts with a whole logged frame. */
  lemma ScanCons(f: Frame, rest: Bytes, p: Pending)
    requires Wire(f)
    ensures Feed(p, f).Malformed? ==> ScanBytes(Encode(f, Resp2) + rest, p) == Scan([], 0, false)
    ensures Feed(p, f).Fed? ==>
      ScanBytes(Encode(f, Resp2) + rest, p)
      == Join(Feed(p, f).pending, Feed(p, f).out, |Encode(f, Resp2)|, ScanBytes(rest, Feed(p, f).pending))
  {
    hide ParseFrame, Encode, Feed, Wire;
    var e := Encode(f, Resp2);
    WireRoundTrip(f, rest);
    assert (e + rest)[|e|..] == rest;
  }

  /** A log cut at byte `n` is read as its whole frames; the torn one is not seen at all. */
  lemma {:induction false} ScanOfCut(fs: seq<Frame>, n: nat, p: Pending)
    requires (forall i :: 0 <= i < |fs| ==> Wire(fs[i])) && n <= |EncodeAll(fs)|
    ensures ScanBytes(EncodeAll(fs)[..n], p) == ScanFrames(fs[..WholeFrames(fs, n)], p)
    decreases |fs|
  {
    hide ParseFrame, Encode, Feed, Wire, ScanBytes;
    var cut := EncodeAll(fs)[..n];
    if fs == [] {
      assert cut == [];
      NothingParsed();
      ScanStops(cut, p);
    } else {
      var e := Encode(fs[0], Resp2);
      if |e| > n {
        assert cut == e[..n];
        WireRoundTrip(fs[0], []);
        ScanStops(cut, p);
      } else {
        var rest := EncodeAll(fs[1..])[..n - |e|];
        assert cut == e + rest;
        ScanCons(fs[0], rest, p);
        var j := WholeFrames(fs[1..], n - |e|);
        assert fs[..j + 1][1..] == fs[1..][..j];
        if Feed(p, fs[0]).Fed? {
          ScanOfCut(fs[1..], n - |e|, Feed(p, fs[0]).pending);
        }
      }
    }
  }

  lemma ScanStops(buf: Bytes, p: Pending)
    requires ParseFrame(buf).Incomplete?
    ensures ScanBytes(buf, p) == Scan([], 0, false)
  {
    hide ParseFrame;
  }

  // ----- which frames those are -----

  /** The last position where every bracket is closed and nothing before it was malformed. */
  predicate IsSafeCut(p: Pending, fs: seq<Frame>, j: nat)
  {
    && j <= |fs|
    && (j == 0 || Bracket(p, fs[..j]) == Some(None))
    && forall i :: j < i <= |fs| ==> Bracket(p, fs[..i]) != Some(None)
  }

  /** Bracketing `fs` goes on from what its first frame leaves pending. */
  lemma BracketCons(p: Pending, fs: seq<Frame>, i: nat)
    requires 0 < i <= |fs|
    ensures Feed(p, fs[0]).Malformed? ==> Bracket(p, fs[..i]).None?
    ensures Feed(p, fs[0]).Fed? ==> Bracket(p, fs[..i]) == Bracket(Feed(p, fs[0]).pending, fs[1..][..i - 1])
    ensures Feed(p, fs[0]).Fed? && Bracket(p, fs[..i]).Some? ==>
      Released(p, fs[..i]) == Feed(p, fs[0]).out + Released(Feed(p, fs[0]).pending, fs[1..][..i - 1])
  {
    hide Feed;
    var head := [fs[0]];
    assert fs[..i] == head + fs[1..][..i - 1];
    BracketAppend(p, head, fs[1..][..i - 1]);
    assert head[..0] == [];
    assert Bracket(p, []) == Some(p);
    if Feed(p, fs[0]).Fed? {
      assert Released(p, head) == [] + Feed(p, fs[0]).out == Feed(p, fs[0]).out;
    }
  }

  /** A scan of frames applies exactly what is released up to the last safe cut. */
  lemma {:induction false} ScanMeaning(fs: seq<Frame>, p: Pending) returns (j: nat)
    ensures IsSafeCut(p, fs, j)
    ensures var r := ScanFrames(fs, p);
            && r.applied == (if j == 0 then [] else Released(p, fs[..j]))
            && r.valid == |EncodeAll(fs[..j])| && !r.crashed && (j > 0 ==> r.valid > 0)
    decreases |fs|
  {
    hide Feed, Encode, Released, Bracket;
    if fs == [] {
      return 0;
    }
    forall i | 0 < i <= |fs|
      ensures Feed(p, fs[0]).Malformed? ==> Bracket(p, fs[..i]).None?
      ensures Feed(p, fs[0]).Fed? ==> Bracket(p, fs[..i]) == Bracket(Feed(p, fs[0]).pending, fs[1..][..i - 1])
    {
      BracketCons(p, fs, i);
    }
    assert EncodeAll(fs[..0]) == [];
    if Feed(p, fs[0]).Malformed? {
      return 0;
    }
    var Fed(q, out) := Feed(p, fs[0]);
    var k := ScanMeaning(fs[1..], q);
    BracketNothing(q);
    assert fs[1..][..0] == [];
    if k == 0 && q.Some? {
      j := 0;
      NothingReleased(p, fs[0]);
      forall i | 0 < i <= |fs| ensures Bracket(p, fs[..i]) != Some(None) {
        assert i == 1 || Bracket(q, fs[1..][..i - 1]) != Some(None);
      }
    } else {
      j := k + 1;
      BracketCons(p, fs, j);
      assert fs[..j][1..] == fs[1..][..k];
      EncodeNotEmpty(fs[0]);
      forall i | j < i <= |fs| ensures Bracket(p, fs[..i]) != Some(None) {
        assert Bracket(q, fs[1..][..i - 1]) != Some(None);
      }
    }
  }

  lemma BracketNothing(q: Pending)
    ensures Bracket(q, []) == Some(q) && Released(q, []) == []
  {
  }

  lemma EncodeNotEmpty(f: Frame)
    ensures |Encode(f, Resp2)| > 0
  {
    hide EncodeChildren, PrintInt;
  }

  /** A frame that leaves a transaction open releases nothing. */
  lemma NothingReleased(p: Pending, f: Frame)
    requires Feed(p, f).Fed? && Feed(p, f).pending.Some?
    ensures Feed(p, f).out == []
  {
  }

  /** Replaying a log cut at any byte applies the frames up to the last safe cut among its whole
      frames, keeps exactly their bytes, and rebuilds the keyspace they describe. */
  lemma CutLogReplay(fs: seq<Frame>, n: nat, s: Store) returns (j: nat)
    requires (forall i :: 0 <= i < |fs| ==> Wire(fs[i])) && n <= |EncodeAll(fs)|
    ensures IsSafeCut(None, fs[..WholeFrames(fs, n)], j)
    ensures var r := ScanBytes(EncodeAll(fs)[..n], None);
            && r.valid == |EncodeAll(fs[..j])| && !r.crashed
            && Fold(s, r.applied) == Fold(s, fs[..j])
            && (Bracket(None, fs[..j]) == Some(None) && r.applied == Released(None, fs[..j]))
  {
    hide ScanBytes, ScanFrames, WholeFrames, Bracket, Released, Fold, IsSafeCut, EncodeAll, Wire;
    var whole := fs[..WholeFrames(fs, n)];
    ScanOfCut(fs, n, None);
    j := ScanMeaning(whole, None);
    CutPlace(whole, j);
    assert whole[..j] == fs[..j];
    if j == 0 {
      assert fs[..0] == [];
      BracketNothing(None);
    }
    BalancedIsFold(s, fs[..j]);
  }

  lemma CutPlace(fs: seq<Frame>, j: nat)
    requires IsSafeCut(None, fs, j)
    ensures j <= |fs| && (j == 0 || Bracket(None, fs[..j]) == Some(None))
  {
  }

  // ----- logs made of units -----

  /** A plain command, or the commands of one transaction between its markers. */
  datatype Unit = Plain(f: Frame) | Transaction(fs: seq<Frame>)

  predicate Logged(f: Frame) { Wire(f) && MarkerOf(f) == NoMarker }

  predicate GoodUnit(u: Unit)
  {
    match u
    case Plain(f) => Logged(f)
    case Transaction(fs) => forall i :: 0 <= i < |fs| ==> Logged(fs[i])
  }

  function CommandsIn(u: Unit): (r: seq<Frame>)
  {
    if u.Plain? then [u.f] else u.fs
  }

  function UnitFrames(u: Unit): (r: seq<Frame>)
    ensures r != []
  {
    if u.Plain? then [u.f] else [MULTI_FRAME] + u.fs + [EXEC_FRAME]
  }

  function AllCommands(us: seq<Unit>): (r: seq<Frame>)
  {
    if us == [] then [] else CommandsIn(us[0]) + AllCommands(us[1..])
  }

  function AllFrames(us: seq<Unit>): (r: seq<Frame>)
  {
    if us == [] then [] else UnitFrames(us[0]) + AllFrames(us[1..])
  }

  /** Inside a transaction everything since the marker is pending. */
  lemma {:induction false} OpenTransaction(fs: seq<Frame>, i: nat)
    requires GoodUnit(Transaction(fs)) && i <= |fs|
    ensures Bracket(None, ([MULTI_FRAME] + fs)[..i + 1]) == Some(Some(fs[..i]))
    ensures Released(None, ([MULTI_FRAME] + fs)[..i + 1]) == []
  {
    hide MarkerOf, GoodUnit, Bracket, Released;
    var log := [MULTI_FRAME] + fs;
    if i == 0 {
      OpenMarker();
      assert log[..1] == [MULTI_FRAME] && fs[..0] == [];
    } else {
      OpenTransaction(fs, i - 1);
      InsideFrame(fs, i - 1);
      assert log[..i + 1] == log[..i] + [fs[i - 1]];
      assert fs[..i] == fs[..i - 1] + [fs[i - 1]];
      InsideOpen(log[..i], fs[..i - 1], fs[i - 1]);
    }
  }

  lemma OpenMarker()
    ensures Bracket(None, [MULTI_FRAME]) == Some(Some([])) && Released(None, [MULTI_FRAME]) == []
  {
    hide MarkerOf;
    MarkersAreMarkers();
    assert [MULTI_FRAME][..0] == [];
  }

  lemma InsideOpen(log: seq<Frame>, held: seq<Frame>, f: Frame)
    requires Bracket(None, log) == Some(Some(held)) && Released(None, log) == [] && MarkerOf(f) == NoMarker
    ensures Bracket(None, log + [f]) == Some(Some(held + [f])) && Released(None, log + [f]) == []
  {
    hide MarkerOf;
    assert (log + [f])[..|log|] == log;
  }

  lemma InsideFrame(fs: seq<Frame>, i: nat)
    requires GoodUnit(Transaction(fs)) && i < |fs|
    ensures MarkerOf(fs[i]) == NoMarker
  {
  }

  /** A unit opens and closes its own brackets, releases its commands, and is safe to cut
      nowhere inside. */
  lemma UnitBrackets(u: Unit)
    requires GoodUnit(u)
    ensures Bracket(None, UnitFrames(u)) == Some(None) && Released(None, UnitFrames(u)) == CommandsIn(u)
    ensures forall i :: 0 < i < |UnitFrames(u)| ==> Bracket(None, UnitFrames(u)[..i]) != Some(None)
  {
    hide Bracket, Released, GoodUnit;
    if u.Plain? {
      PlainBrackets(u.f) by { assert GoodUnit(u); }
    } else {
      TransactionBrackets(u.fs);
      var open := [MULTI_FRAME] + u.fs;
      forall i | 0 < i < |UnitFrames(u)| ensures Bracket(None, UnitFrames(u)[..i]) != Some(None) {
        OpenTransaction(u.fs, i - 1);
        assert UnitFrames(u)[..i] == open[..i];
      }
    }
  }

  lemma PlainBrackets(f: Frame)
    requires GoodUnit(Plain(f))
    ensures Bracket(None, [f]) == Some(None) && Released(None, [f]) == [f]
  {
    hide MarkerOf;
    assert [f][..0] == [];
    BracketNothing(None);
    assert [] + [f] == [f];
  }

  lemma TransactionBrackets(fs: seq<Frame>)
    requires GoodUnit(Transaction(fs))
    ensures Bracket(None, UnitFrames(Transaction(fs))) == Some(None)
    ensures Released(None, UnitFrames(Transaction(fs))) == fs
  {
    hide MarkerOf, GoodUnit;
    var open := [MULTI_FRAME] + fs;
    assert (open + [EXEC_FRAME])[..|open|] == open;
    assert open[..|fs| + 1] == open && fs[..|fs|] == fs;
    OpenTransaction(fs, |fs|);
    MarkersAreMarkers();
    assert [] + fs == fs;
  }

  /** The safe cut of the first `m` frames is the end of the last unit that fits in them. */
  lemma {:induction false} UnitCut(us: seq<Unit>, m: nat) returns (k: nat)
    requires (forall i :: 0 <= i < |us| ==> GoodUnit(us[i])) && m <= |AllFrames(us)|
    ensures k <= |us| && |AllFrames(us[..k])| <= m && (k < |us| ==> m < |AllFrames(us[..k + 1])|)
    ensures IsSafeCut(None, AllFrames(us)[..m], |AllFrames(us[..k])|)
    ensures AllFrames(us)[..|AllFrames(us[..k])|] == AllFrames(us[..k])
    ensures Bracket(None, AllFrames(us[..k])) == Some(None)
    ensures Released(None, AllFrames(us[..k])) == AllCommands(us[..k])
  {
    hide Bracket, Released, UnitFrames;
    BracketNothing(None);
    if us == [] {
      return 0;
    }
    var first, rest := UnitFrames(us[0]), AllFrames(us[1..]);
    UnitBrackets(us[0]);
    var log := AllFrames(us)[..m];
    if |first| > m {
      k := 0;
      assert us[..1][1..] == [];
      forall i | 0 < i <= m ensures Bracket(None, log[..i]) != Some(None) {
        assert log[..i] == first[..i];
      }
    } else {
      var k' := UnitCut(us[1..], m - |first|);
      k := k' + 1;
      assert us[..k][1..] == us[1..][..k'];
      if k < |us| {
        assert us[..k + 1][1..] == us[1..][..k' + 1];
      }
      BracketAppend(None, first, AllFrames(us[1..][..k']));
      var j := |AllFrames(us[..k])|;
      assert log[..j] == AllFrames(us[..k]);
      forall i | j < i <= m ensures Bracket(None, log[..i]) != Some(None) {
        assert log[..i] == first + rest[..m - |first|][..i - |first|];
        BracketAppend(None, first, rest[..m - |first|][..i - |first|]);
      }
    }
  }

  lemma {:induction false} FramesAreWire(us: seq<Unit>)
    requires forall i :: 0 <= i < |us| ==> GoodUnit(us[i])
    ensures forall i :: 0 <= i < |AllFrames(us)| ==> Wire(AllFrames(us)[i])
  {
    if us != [] {
      FramesAreWire(us[1..]);
    }
  }

  /** All or nothing: a log of units cut at any byte replays exactly the units that lie wholly
      before the cut, in order, and the file is truncated to the end of the last of them. */
  lemma UnitAtomicity(us: seq<Unit>, n: nat) returns (k: nat)
    requires (forall i :: 0 <= i < |us| ==> GoodUnit(us[i])) && n <= |EncodeAll(AllFrames(us))|
    ensures k <= |us| && |EncodeAll(AllFrames(us[..k]))| <= n
    ensures k < |us| ==> n < |EncodeAll(AllFrames(us[..k + 1]))|
    ensures ScanBytes(EncodeAll(AllFrames(us))[..n], None)
         == Scan(AllCommands(us[..k]), |EncodeAll(AllFrames(us[..k]))|, false)
  {
    hide ScanBytes, Bracket, Released, UnitFrames, GoodUnit;
    var fs := AllFrames(us);
    FramesAreWire(us);
    var j := CutLogReplay(fs, n, map[]);
    var m := WholeFrames(fs, n);
    k := UnitCut(us, m);
    var j' := |AllFrames(us[..k])|;
    assert fs[..m][..j] == fs[..j] && fs[..m][..j'] == fs[..j'];
    assert j == j';
    WholeFramesIsLargest(fs, n, j);
    if k < |us| {
      var i := |AllFrames(us[..k + 1])|;
      UnitPrefix(us, k + 1);
      WholeFramesIsLargest(fs, n, i);
    }
  }

  lemma {:induction false} UnitPrefix(us: seq<Unit>, k: nat)
    requires k <= |us|
    ensures |AllFrames(us[..k])| <= |AllFrames(us)|
    ensures AllFrames(us)[..|AllFrames(us[..k])|] == AllFrames(us[..k])
  {
    if k > 0 {
      UnitPrefix(us[1..], k - 1);
      assert us[..k][1..] == us[1..][..k - 1];
    }
  }

  // ----- any bytes at all: a repaired file stays repaired -----

  lemma CrlfTight(s: Bytes, n: nat)
    requires FindCrlf(s).Some? && FindCrlf(s).value + 2 <= n <= |s|
    ensures FindCrlf(s[..n]) == FindCrlf(s)
  {
    var i, t := FindCrlf(s).value, s[..n];
    assert t[i] == s[i] && t[i + 1] == s[i + 1];
    assert forall j :: 0 <= j < n ==> t[j] == s[j];
  }

  lemma LineTight(s: Bytes, n: nat)
    requires s != [] && ParseLine(s).Parsed? && ParseLine(s).used <= n <= |s|
    ensures ParseLine(s[..n]) == ParseLine(s)
  {
    assert s[..n][1..] == s[1..][..n - 1];
    CrlfTight(s[1..], n - 1);
    var used := ParseLine(s).used;
    assert s[..n][1..used - 2] == s[1..used - 2];
  }

  /** A parsed frame depends only on the bytes it used. */
  lemma {:induction false} FrameTight(s: Bytes, n: nat)
    requires ParseFrame(s).Parsed? && ParseFrame(s).used <= n <= |s|
    ensures ParseFrame(s[..n]) == ParseFrame(s)
    decreases |s|, 0
  {
    hide ParseLine, Utf8, ParseI64;
    LineTight(s, n);
    if s[0] == 36 {
      var Parsed(len, head) := ParseNumber(s, BadBulkLength);
      if len >= 0 {
        SliceOfTake(s, n, head, head + len);
      }
    } else if s[0] == 42 {
      var Parsed(count, head) := ParseNumber(s, BadArrayLength);
      DropOfTake(s, n, head);
      ItemsTight(s[head..], n - head, if count < 0 then 0 else count);
    }
  }

  lemma {:induction false} ItemsTight(s: Bytes, n: nat, count: nat)
    requires ParseItems(s, count).Parsed? && ParseItems(s, count).used <= n <= |s|
    ensures ParseItems(s[..n], count) == ParseItems(s, count)
    decreases |s|, 1
  {
    hide ParseFrame;
    if count > 0 {
      var used := ParseFrame(s).used;
      FrameTight(s, n);
      assert s[..n][used..] == s[used..][..n - used];
      ItemsTight(s[used..], n - used, count - 1);
    }
  }

  /** Cutting a file where replay says keeps every applied frame, whatever bytes it held. */
  lemma {:induction false} ScanTight(s: Bytes, p: Pending)
    requires ScanBytes(s, p).valid > 0
    ensures var r := ScanBytes(s, p);
            ScanBytes(s[..r.valid], p) == Scan(r.applied, r.valid, false)
    decreases |s|
  {
    hide ParseFrame, Feed;
    var r := ScanBytes(s, p);
    var Parsed(f, n) := ParseFrame(s);
    var Fed(q, out) := Feed(p, f);
    FrameTight(s, r.valid);
    assert s[..r.valid][n..] == s[n..][..r.valid - n];
    if ScanBytes(s[n..], q).valid > 0 {
      ScanTight(s[n..], q);
    } else {
      assert s[n..][..0] == [];
      NothingParsed();
      ScanStops([], q);
      NothingMore(s[n..]);
    }
  }

  /** Outside a transaction, a scan that finds no place to cut applied nothing. */
  lemma NothingMore(s: Bytes)
    requires ScanBytes(s, None).valid == 0
    ensures ScanBytes(s, None).applied == []
  {
    if ScanBytes(s, None).applied != [] {
      AppliedImpliesValid(s, None);
    }
  }

  lemma {:induction false} AppliedImpliesValid(s: Bytes, p: Pending)
    requires ScanBytes(s, p).applied != []
    ensures ScanBytes(s, p).valid > 0
    decreases |s|
  {
    hide ParseFrame;
    var Parsed(f, n) := ParseFrame(s);
    var Fed(q, out) := Feed(p, f);
    if q.Some? {
      AppliedImpliesValid(s[n..], q);
    }
  }

  /** A fully valid file followed by more bytes: first what it held, then the rest. */
  lemma {:induction false} ScanAppend(a: Bytes, b: Bytes, p: Pending)
    requires ScanBytes(a, p).valid == |a| && (a == [] ==> p.None?)
    ensures var r, t := ScanBytes(a, p), ScanBytes(b, None);
            ScanBytes(a + b, p) == Scan(r.applied + t.applied, |a| + t.valid, t.crashed)
    decreases |a|
  {
    hide ParseFrame, Feed;
    if a == [] {
      assert a + b == b;
      NothingParsed();
      ScanStops(a, p);
    } else {
      var Parsed(f, n) := ParseFrame(a);
      var Fed(q, out) := Feed(p, f);
      FrameStable(a, b);
      DropOfAppend(a, b, n);
      ScanAppend(a[n..], b, q);
      assert out + (ScanBytes(a[n..], q).applied + ScanBytes(b, None).applied)
          == (out + ScanBytes(a[n..], q).applied) + ScanBytes(b, None).applied;
    }
  }

  /** Whatever bytes a file holds: replaying the truncated file again applies the same frames and
      cuts nothing more, and anything appended to it later is replayed after them. */
  lemma RepairedFile(raw: Bytes, more: Bytes)
    ensures var r := ScanBytes(raw, None);
            var kept := raw[..r.valid];
            var t := ScanBytes(more, None);
            && ScanBytes(kept, None) == Scan(r.applied, |kept|, false)
            && ScanBytes(kept + more, None) == Scan(r.applied + t.applied, |kept| + t.valid, t.crashed)
  {
    hide ParseFrame, Feed, ScanBytes;
    var r := ScanBytes(raw, None);
    if r.valid > 0 {
      ScanTight(raw, None);
    } else {
      NothingMore(raw);
      assert raw[..0] == [];
      NothingParsed();
      ScanStops([], None);
    }
    ScanAppend(raw[..r.valid], more, None);
  }

  // ----- markers out of place -----

  /** An EXEC without a MULTI, and a MULTI inside another, stop the reader there: the file is cut in front. */
  lemma MisplacedStops(held: seq<Frame>, rest: Bytes)
    ensures ScanBytes(Encode(EXEC_FRAME, Resp2) + rest, None) == Scan([], 0, false)
    ensures ScanBytes(Encode(MULTI_FRAME, Resp2) + rest, Some(held)) == Scan([], 0, false)
  {
    hide Encode, ScanBytes, MarkerOf;
    MarkersAreMarkers();
    ScanCons(EXEC_FRAME, rest, None);
    ScanCons(MULTI_FRAME, rest, Some(held));
  }
}
