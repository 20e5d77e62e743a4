// A rewrite appends to whatever its new file already holds, and an interrupted rewrite leaves that file
// cut at any byte. What later restarts make of such a file. crates/server/src/aof.rs:218-235, 537-620.
module TornFiles {
  import opened Bytes
  import opened Frames
  import opened Resp
  import opened Commands
  import opened Grouping
  import opened Replay
  import opened CrashAtomicity
  import opened Recovery

  // ----- a snapshot with header 0 over a file that was not empty -----

  /** Generation `g` as a rewrite leaves it: the snapshot's header is 0, and the log follows `lead`. */
  function Rewritten(g: nat, img: Store, lead: Bytes, log: seq<Frame>): (d: Disk)
  {
    Disk(Names(g), map[g := lead + EncodeAll(log)], map[g := Decodes(0, img)])
  }

  predicate ClosedLog(log: seq<Frame>)
  {
    (forall i :: 0 <= i < |log| ==> Wire(log[i])) && Bracket(None, log) == Some(None)
  }

  /** The keyspace the rewrite's snapshot and log describe comes back. */
  ghost predicate RestartsRight(g: nat, img: Store, lead: Bytes, log: seq<Frame>)
  {
    Recovered(Rewritten(g, img, lead, log)).Up? && Recovered(Rewritten(g, img, lead, log)).store == Fold(img, log)
  }

  lemma LeadThenLog(g: nat, img: Store, lead: Bytes, log: seq<Frame>)
    requires ScanBytes(lead, None).valid == |lead| && ClosedLog(log)
    ensures Recovered(Rewritten(g, img, lead, log)).Up?
    ensures Recovered(Rewritten(g, img, lead, log)).store == Fold(Fold(img, ScanBytes(lead, None).applied), log)
  {
    hide ScanBytes, Fold, Bracket, WholeFrames, Wire;
    var raw, stale := lead + EncodeAll(log), ScanBytes(lead, None).applied;
    ScanAppend(lead, EncodeAll(log), None);
    assert EncodeAll(log)[..|EncodeAll(log)|] == EncodeAll(log) && raw[0..] == raw && log[..|log|] == log;
    var j := CutLogReplay(log, |EncodeAll(log)|, Fold(img, stale));
    WholeFramesIsLargest(log, |EncodeAll(log)|, |log|);
    LastCut(log, j);
    FoldAppend(img, stale, ScanBytes(EncodeAll(log), None).applied);
  }

  lemma LastCut(log: seq<Frame>, j: nat)
    requires IsSafeCut(None, log[..|log|], j) && Bracket(None, log) == Some(None)
    ensures j == |log|
  {
    assert log[..|log|] == log;
    assert log[..|log|][..|log|] == log;
  }

  lemma NothingIsClosed()
    ensures ClosedLog([])
  {
    BracketNothing(None);
  }

  // ----- leftovers that stop the reader -----

  /** Replay ends in a frame it cannot read, in a misplaced marker, or inside a transaction. What is left
      out is a file that ends in the middle of a frame. */
  predicate Stuck(buf: Bytes, p: Pending)
    decreases |buf|
  {
    match ParseFrame(buf)
    case Parsed(f, n) =>
      (match Feed(p, f)
       case Malformed => true
       case Fed(q, _) => Stuck(buf[n..], q))
    case Incomplete => buf == [] && p.Some?
    case _ => true
  }

  /** A log with brackets of its own never closes somebody else's. */
  lemma {:induction false} OpenStaysOpen(p: Pending, log: seq<Frame>)
    requires p.Some? && Bracket(None, log).Some?
    ensures Bracket(p, log).Some? ==> Bracket(p, log).value.Some? && Bracket(None, log) == Some(None)
  {
    hide MarkerOf;
    if log != [] {
      OpenStaysOpen(p, log[..|log| - 1]);
    }
  }

  lemma OpenSwallows(p: Pending, log: seq<Frame>, n: nat)
    requires p.Some? && (forall i :: 0 <= i < |log| ==> Wire(log[i])) && Bracket(None, log).Some? && n <= |EncodeAll(log)|
    ensures ScanBytes(EncodeAll(log)[..n], p) == Scan([], 0, false)
  {
    hide Wire, ScanBytes, ScanFrames, Bracket;
    ScanOfCut(log, n, p);
    var whole := log[..WholeFrames(log, n)];
    var j := ScanMeaning(whole, p);
    NothingEncoded();
    if j > 0 {
      assert whole[..j] == log[..j] && log == log[..j] + log[j..];
      BracketAppend(None, log[..j], log[j..]);
      OpenStaysOpen(p, log[..j]);
      assert false;
    }
    assert whole[..0] == [];
  }

  /** Whatever part of whatever log follows a stopping leftover, a scan sees none of it. */
  lemma {:induction false} StuckScan(buf: Bytes, p: Pending, log: seq<Frame>, n: nat)
    requires Stuck(buf, p) && (forall i :: 0 <= i < |log| ==> Wire(log[i])) && Bracket(None, log).Some? && n <= |EncodeAll(log)|
    ensures ScanBytes(buf + EncodeAll(log)[..n], p) == ScanBytes(buf, p)
    decreases |buf|
  {
    hide ParseFrame, Feed, Wire, EncodeAll, Bracket;
    var more := EncodeAll(log)[..n];
    if ParseFrame(buf).Incomplete? {
      assert buf + more == more;
      OpenSwallows(p, log, n);
    } else {
      FrameStable(buf, more);
      if ParseFrame(buf).Parsed? && Feed(p, ParseFrame(buf).value).Fed? {
        var Parsed(f, m) := ParseFrame(buf);
        DropOfAppend(buf, more, m);
        StuckScan(buf[m..], Feed(p, f).pending, log, n);
      }
    }
  }

  /** After a rewrite onto a stopping leftover no frame logged afterwards ever comes back, however many
      there are: a restart finds what the leftover made of the snapshot, cuts the file inside the
      leftover, or does not come up. */
  lemma StoppedLeadLoses(g: nat, img: Store, lead: Bytes, log: seq<Frame>)
    requires Stuck(lead, None) && ClosedLog(log)
    ensures var r, scan := Recovered(Rewritten(g, img, lead, log)), ScanBytes(lead, None);
            if scan.crashed then r.Crashed?
            else r.Up? && r.store == Fold(img, scan.applied) && r.disk.aofs[g] == lead[..scan.valid]
  {
    hide ScanBytes, Fold, Bracket, Stuck, Wire;
    var bytes, scan := EncodeAll(log), ScanBytes(lead, None);
    assert bytes[..|bytes|] == bytes && (lead + bytes)[0..] == lead + bytes;
    StuckScan(lead, None, log, |bytes|);
    assert (lead + bytes)[..scan.valid] == lead[..scan.valid];
  }

  // ----- leftovers that end in the middle of a frame -----

  /** A counter's first INCR: the frame that tells a torn leftover from a whole one. */
  function IncrFrame(k: Bytes): (f: Frame) { Array([Bulk(INCR), Bulk(k)]) }

  predicate Letters(k: Bytes) { |k| <= I64_MAX && forall i :: 0 <= i < |k| ==> k[i] == 97 }

  const INCR_HEAD: Bytes := [42, 50, 13, 10]
  const INCR_NAME: Bytes := [36, 52, 13, 10, 73, 78, 67, 82, 13, 10]

  function KeyBytes(k: Bytes): (b: Bytes) { Encode(Bulk(k), Resp2) }

  lemma IncrBytes(k: Bytes)
    ensures Encode(IncrFrame(k), Resp2) == INCR_HEAD + INCR_NAME + KeyBytes(k)
    ensures Encode(Bulk(INCR), Resp2) == INCR_NAME
  {
    hide Encode;
    IncrParts();
    IncrItems(k);
    assert KeyBytes(k) + [] == KeyBytes(k);
    assert Encode(IncrFrame(k), Resp2) == INCR_HEAD + (INCR_NAME + KeyBytes(k)) == INCR_HEAD + INCR_NAME + KeyBytes(k);
  }

  lemma IncrParts()
    ensures Encode(Bulk(INCR), Resp2) == INCR_NAME && [42] + PrintInt(2) + CRLF == INCR_HEAD
  {
    assert PrintInt(2) == [50] && PrintInt(4) == [52];
  }

  lemma IncrItems(k: Bytes)
    ensures Encode(IncrFrame(k), Resp2)
         == [42] + PrintInt(2) + CRLF + (Encode(Bulk(INCR), Resp2) + (Encode(Bulk(k), Resp2) + []))
  {
    hide PrintInt;
    var f := IncrFrame(k);
    var fs := Children(f);
    assert fs[1..] == [Bulk(k)] && fs[1..][1..] == [];
    assert EncodeChildren(f, fs[1..][1..], Resp2) == [];
    assert EncodeChildren(f, fs[1..], Resp2) == Encode(fs[1], Resp2) + [];
    assert EncodeChildren(f, fs, Resp2) == Encode(fs[0], Resp2) + EncodeChildren(f, fs[1..], Resp2);
  }

  /** A star opens the frame and occurs nowhere else; items can begin in two places only. */
  lemma BytesOf(k: Bytes, m: nat)
    requires Letters(k) && m < |Encode(IncrFrame(k), Resp2)|
    ensures Encode(IncrFrame(k), Resp2)[m] == 42 <==> m == 0
    ensures Encode(IncrFrame(k), Resp2)[m] == 36 <==> m == 4 || m == 14
  {
    hide Encode;
    IncrBytes(k);
    KeyBytesOf(k);
    var head := INCR_HEAD + INCR_NAME;
    assert Encode(IncrFrame(k), Resp2)[m] == if m < 14 then head[m] else KeyBytes(k)[m - 14];
  }

  lemma KeyBytesOf(k: Bytes)
    requires Letters(k)
    ensures KeyBytes(k) != [] && forall i :: 0 <= i < |KeyBytes(k)| ==> KeyBytes(k)[i] != 42 && (KeyBytes(k)[i] == 36 <==> i == 0)
  {
  }

  /** The item that ends the frame, and the two items before it. */
  lemma KeyItems(k: Bytes, count: nat)
    requires Letters(k) && ParseItems(KeyBytes(k), count).Parsed?
    ensures count <= 1 && ParseItems(KeyBytes(k), count).value == [Bulk(k)][..count]
  {
    hide ParseFrame;
    BulkOf(k, []);
    assert KeyBytes(k) + [] == KeyBytes(k) && KeyBytes(k)[|KeyBytes(k)|..] == [];
    NothingParsed();
  }

  lemma NameItems(k: Bytes, count: nat)
    requires Letters(k) && ParseItems(INCR_NAME + KeyBytes(k), count).Parsed?
    ensures count <= 2 && ParseItems(INCR_NAME + KeyBytes(k), count).value == [Bulk(INCR), Bulk(k)][..count]
  {
    hide ParseFrame, KeyBytes;
    IncrBytes(k);
    BulkOf(INCR, KeyBytes(k));
    assert (INCR_NAME + KeyBytes(k))[|INCR_NAME|..] == KeyBytes(k);
    if count > 0 {
      KeyItems(k, count - 1);
    }
  }

  /** A key that occurs among the items is the last of them, behind one that holds a star. */
  predicate KeyLast(items: seq<Frame>, k: Bytes)
  {
    && (forall i :: 0 <= i < |items| - 1 ==> items[i] != Bulk(k))
    && (items != [] && items[|items| - 1] == Bulk(k) ==>
          exists j :: 0 <= j < |items| - 1 && items[j].Bulk? && 42 in items[j].data)
  }

  // ----- header lines and short items -----

  lemma StarIsNoNumber(s: Bytes)
    requires 42 in s
    ensures ParseI64(s).None?
  {
    var i :| 0 <= i < |s| && s[i] == 42;
    StrangeByte(s, i);
  }

  /** A header line that the leftover leaves open takes in the star. */
  lemma LineCrosses(a: Bytes, e: Bytes)
    requires a != [] && ParseLine(a).Incomplete? && INCR_HEAD <= e
    ensures ParseLine(a + e).Parsed? && 42 in ParseLine(a + e).value
  {
    hide FindCrlf;
    assert (a + e)[1..] == a[1..] + e;
    CrlfBehind(a[1..], e);
    assert ParseLine(a + e).value[|a| - 1] == e[0] == INCR_HEAD[0];
  }

  lemma CrlfBehind(x: Bytes, e: Bytes)
    requires FindCrlf(x).None? && INCR_HEAD <= e
    ensures FindCrlf(x + e) == Some(|x| + 2)
  {
    hide FindCrlf;
    var s, n := x + e, |x|;
    assert e[0] == INCR_HEAD[0] && e[1] == INCR_HEAD[1] && e[2] == INCR_HEAD[2] && e[3] == INCR_HEAD[3];
    assert s[n] == 42 && s[n + 1] == 50 && s[n + 2] == CR && s[n + 3] == LF;
    assert forall j :: 0 <= j < n ==> s[j] == x[j];
    assert forall j :: 0 <= j < n + 2 ==> !(s[j] == CR && s[j + 1] == LF);
  }

  lemma NumberCrosses(a: Bytes, e: Bytes, bad: ParseError)
    requires a != [] && ParseNumber(a, bad).Incomplete? && INCR_HEAD <= e
    ensures ParseNumber(a + e, bad).Failed?
  {
    hide ParseLine, ParseI64, Utf8;
    LineCrosses(a, e);
    StarIsNoNumber(ParseLine(a + e).value);
  }

  lemma {:induction false} ItemsShort(s: Bytes, count: nat)
    requires ParseItems(s, count).Parsed?
    ensures forall i :: 0 <= i < count && ParseItems(s, count).value[i].Bulk? ==> |ParseItems(s, count).value[i].data| < |s|
    decreases |s|
  {
    hide ParseFrame;
    if count > 0 {
      var used := ParseFrame(s).used;
      if ParseFrame(s).value.Bulk? {
        BulkShort(s);
      }
      ItemsShort(s[used..], count - 1);
    }
  }

  lemma BulkShort(s: Bytes)
    requires ParseFrame(s).Parsed? && ParseFrame(s).value.Bulk?
    ensures |ParseFrame(s).value.data| < |s|
  {
    hide ParseItems;
  }

  lemma FrameShort(s: Bytes, k: Bytes)
    requires ParseFrame(s).Parsed? && |s| <= |k|
    ensures Free(ParseFrame(s).value, k)
  {
    hide ParseItems, ParseNumber;
    var f := ParseFrame(s).value;
    if f.Array? {
      var Parsed(count, head) := ParseNumber(s, BadArrayLength);
      ItemsShort(s[head..], if count < 0 then 0 else count);
    }
  }

  predicate Free(f: Frame, k: Bytes) { f.Array? ==> Bulk(k) !in f.items }

  // ----- the frame that the leftover begins and the log completes -----

  /** A bulk string that takes its missing bytes from the log. */
  lemma BulkCrosses(a: Bytes, k: Bytes)
    requires Letters(k) && |a| < |k| && a != [] && ParseFrame(a).Incomplete?
    requires ParseFrame(a + Encode(IncrFrame(k), Resp2)).Parsed? && ParseFrame(a + Encode(IncrFrame(k), Resp2)).value.Bulk?
    ensures var Parsed(item, n) := ParseFrame(a + Encode(IncrFrame(k), Resp2));
            n > |a| && item != Bulk(k) && (n >= |a| + 3 ==> 42 in item.data)
  {
    hide Encode, ParseFrame, ParseNumber;
    var e := Encode(IncrFrame(k), Resp2);
    IncrBytes(k);
    var s := a + e;
    BulkTag(s);
    assert s[0] == a[0] == 36;
    BulkParse(a);
    BulkParse(s);
    if ParseNumber(a, BadBulkLength).Incomplete? {
      NumberCrosses(a, e, BadBulkLength);
      assert false;
    }
    NumberStable(a, e, BadBulkLength);
    var Parsed(len, head) := ParseNumber(a, BadBulkLength);
    BodyCrosses(a, e, k, len, head);
  }

  lemma BodyCrosses(a: Bytes, e: Bytes, k: Bytes, len: int, head: nat)
    requires Letters(k) && |a| < |k| && e != [] && e[0] == 42 && head <= |a| && ParseBulkBody(a, len, head).Incomplete?
    requires ParseBulkBody(a + e, len, head).Parsed?
    ensures var Parsed(item, n) := ParseBulkBody(a + e, len, head);
            item.Bulk? ==> n > |a| && item != Bulk(k) && (n >= |a| + 3 ==> 42 in item.data)
  {
    if head + len > |a| {
      assert (a + e)[head..head + len][|a| - head] == 42;
    }
  }

  lemma BulkTag(s: Bytes)
    requires ParseFrame(s).Parsed? && ParseFrame(s).value.Bulk?
    ensures s != [] && s[0] == 36
  {
    hide ParseItems;
  }

  lemma BulkParse(s: Bytes)
    requires s != [] && s[0] == 36
    ensures ParseNumber(s, BadBulkLength).Parsed? ==>
      ParseFrame(s) == ParseBulkBody(s, ParseNumber(s, BadBulkLength).value, ParseNumber(s, BadBulkLength).used)
    ensures ParseNumber(s, BadBulkLength).Failed? ==> ParseFrame(s).Failed?
  {
    hide ParseNumber, ParseItems, ParseBulkBody;
  }

  lemma NumberStable(a: Bytes, b: Bytes, bad: ParseError)
    requires a != [] && !ParseNumber(a, bad).Incomplete?
    ensures ParseNumber(a + b, bad) == ParseNumber(a, bad)
  {
    hide ParseLine, ParseI64, Utf8;
    LineStable(a, b);
  }

  /** The items of an array that the leftover leaves unfinished. */
  lemma {:induction false} ItemsCross(a: Bytes, count: nat, k: Bytes)
    requires Letters(k) && |a| < |k| && ParseItems(a, count).Incomplete?
    requires ParseItems(a + Encode(IncrFrame(k), Resp2), count).Parsed?
    requires forall f :: f in ParseItems(a + Encode(IncrFrame(k), Resp2), count).value ==> f.Bulk?
    ensures KeyLast(ParseItems(a + Encode(IncrFrame(k), Resp2), count).value, k)
    decreases |a|
  {
    hide ParseFrame, Encode;
    var e := Encode(IncrFrame(k), Resp2);
    var items := ParseItems(a + e, count).value;
    var Parsed(item, n) := ParseFrame(a + e);
    assert items[0] == item;
    if a == [] {
      assert a + e == e;
      StarIsArray(k);
      assert false;
    } else if ParseFrame(a).Incomplete? {
      BulkCrosses(a, k);
      assert (a + e)[n..] == e[n - |a|..];
      RestItems(item, n - |a|, count - 1, k);
    } else {
      FrameStable(a, e);
      DropOfAppend(a, e, n);
      BulkShort(a);
      var rest := ParseItems(a[n..] + e, count - 1).value;
      assert items == [item] + rest;
      forall f | f in rest ensures f.Bulk? { assert f in items; }
      ItemsCross(a[n..], count - 1, k);
      OneMoreItem(item, rest, k);
    }
  }

  lemma StarIsArray(k: Bytes)
    requires Letters(k)
    ensures ParseFrame(Encode(IncrFrame(k), Resp2)) == Parsed(IncrFrame(k), |Encode(IncrFrame(k), Resp2)|)
  {
    hide Encode, ParseFrame;
    WireRoundTrip(IncrFrame(k), []);
    assert Encode(IncrFrame(k), Resp2) + [] == Encode(IncrFrame(k), Resp2);
  }

  lemma OneMoreItem(item: Frame, rest: seq<Frame>, k: Bytes)
    requires item != Bulk(k) && rest != [] && KeyLast(rest, k)
    ensures KeyLast([item] + rest, k)
  {
    var items := [item] + rest;
    forall i | 0 <= i < |items| - 1 ensures items[i] != Bulk(k) {
      assert i == 0 || items[i] == rest[i - 1];
    }
    if items[|items| - 1] == Bulk(k) {
      var j :| 0 <= j < |rest| - 1 && rest[j].Bulk? && 42 in rest[j].data;
      assert items[j + 1] == rest[j];
    }
  }

  /** What can follow the torn item: the command's name and key, its key, or nothing. */
  lemma RestItems(item: Frame, m: nat, count: nat, k: Bytes)
    requires Letters(k) && item.Bulk? && item != Bulk(k) && 0 < m <= |Encode(IncrFrame(k), Resp2)|
    requires m >= 3 ==> 42 in item.data
    requires ParseItems(Encode(IncrFrame(k), Resp2)[m..], count).Parsed?
    requires forall f :: f in ParseItems(Encode(IncrFrame(k), Resp2)[m..], count).value ==> f.Bulk?
    ensures KeyLast([item] + ParseItems(Encode(IncrFrame(k), Resp2)[m..], count).value, k)
  {
    hide ParseFrame, Encode, KeyBytes, ParseItems;
    var e := Encode(IncrFrame(k), Resp2);
    var rest := ParseItems(e[m..], count).value;
    if count > 0 {
      IncrBytes(k);
      assert rest[0] in rest;
      FirstIsBulk(e[m..], count);
      BytesOf(k, m);
      assert m == 4 || m == 14;
      if m == 4 {
        assert e[4..] == INCR_NAME + KeyBytes(k);
        NameItems(k, count);
        assert rest == [Bulk(INCR)] || rest == [Bulk(INCR), Bulk(k)];
      } else {
        assert e[14..] == KeyBytes(k);
        KeyItems(k, count);
      }
    } else {
      assert rest == [];
    }
    StarThenKey(item, rest, k);
  }

  lemma StarThenKey(item: Frame, rest: seq<Frame>, k: Bytes)
    requires item.Bulk? && item != Bulk(k) && Letters(k) && (rest != [] ==> 42 in item.data)
    requires rest == [] || rest == [Bulk(INCR)] || rest == [Bulk(INCR), Bulk(k)] || rest == [Bulk(k)]
    ensures KeyLast([item] + rest, k)
  {
    assert INCR[0] == 73 && INCR != k;
    var items := [item] + rest;
    assert items[0] == item;
  }

  lemma FirstIsBulk(s: Bytes, count: nat)
    requires count > 0 && ParseItems(s, count).Parsed? && ParseItems(s, count).value[0].Bulk?
    ensures s != [] && s[0] == 36
  {
  }

  lemma CrossingFrame(t: Bytes, k: Bytes)
    requires Letters(k) && |t| < |k| && t != [] && ParseFrame(t).Incomplete? && ParseFrame(t + Encode(IncrFrame(k), Resp2)).Parsed?
    ensures var Parsed(g, n) := ParseFrame(t + Encode(IncrFrame(k), Resp2));
            n > |t| && (Args(g).Some? ==> KeyLast(g.items, k))
  {
    hide Encode, ParseFrame, Args;
    var e := Encode(IncrFrame(k), Resp2);
    var Parsed(g, n) := ParseFrame(t + e);
    assert (t + e)[..|t|] == t;
    if n <= |t| {
      FrameTight(t + e, |t|);
    }
    if Args(g).Some? {
      ArgsAreBulk(g);
      ArrayCrosses(t, k);
    }
  }

  /** An array that the leftover leaves unfinished. */
  lemma ArrayCrosses(t: Bytes, k: Bytes)
    requires Letters(k) && |t| < |k| && t != [] && ParseFrame(t).Incomplete? && ParseFrame(t + Encode(IncrFrame(k), Resp2)).Parsed?
    requires ParseFrame(t + Encode(IncrFrame(k), Resp2)).value.Array?
    requires forall f :: f in ParseFrame(t + Encode(IncrFrame(k), Resp2)).value.items ==> f.Bulk?
    ensures KeyLast(ParseFrame(t + Encode(IncrFrame(k), Resp2)).value.items, k)
  {
    hide Encode, ParseFrame, ParseItems, ParseNumber, KeyLast;
    var e := Encode(IncrFrame(k), Resp2);
    IncrBytes(k);
    ArrayParts(t + e);
    assert t[0] == (t + e)[0] == 42;
    if ParseNumber(t, BadArrayLength).Incomplete? {
      NumberCrosses(t, e, BadArrayLength);
      assert false;
    }
    NumberStable(t, e, BadArrayLength);
    var Parsed(count, head) := ParseNumber(t, BadArrayLength);
    DropOfAppend(t, e, head);
    ArrayWaits(t);
    ItemsCross(t[head..], if count < 0 then 0 else count, k);
  }

  lemma ArrayParts(s: Bytes)
    requires ParseFrame(s).Parsed? && ParseFrame(s).value.Array?
    ensures s != [] && s[0] == 42 && ParseNumber(s, BadArrayLength).Parsed?
    ensures var Parsed(count, head) := ParseNumber(s, BadArrayLength);
            var items := ParseItems(s[head..], if count < 0 then 0 else count);
            items.Parsed? && ParseFrame(s).value.items == items.value
  {
    hide ParseNumber, ParseItems, ParseLine;
  }

  lemma ArrayWaits(s: Bytes)
    requires s != [] && s[0] == 42 && ParseFrame(s).Incomplete? && ParseNumber(s, BadArrayLength).Parsed?
    ensures var Parsed(count, head) := ParseNumber(s, BadArrayLength);
            ParseItems(s[head..], if count < 0 then 0 else count).Incomplete?
  {
    hide ParseNumber, ParseItems, ParseLine;
  }

  lemma ArgsAreBulk(g: Frame)
    requires Args(g).Some?
    ensures g.Array? && forall f :: f in g.items ==> f.Bulk?
  {
  }

  // ----- what such a frame can do -----

  /** The keys a command can bring into being. */
  function Added(c: Command): (r: seq<Bytes>)
  {
    match c
    case Del(_) => []
    case Rename(_, dst) => [dst]
    case _ => Keys(c)
  }

  lemma {:induction false} SetPairsAdds(s: Store, pairs: seq<Bytes>, k: Bytes)
    requires k !in s && k in SetPairs(s, pairs)
    ensures k in Keys(MSet(pairs))
    decreases |pairs|
  {
    assert |pairs| >= 2;
    var rest := pairs[2..];
    PairKeys(pairs);
    if k != pairs[0] {
      SetPairsAdds(s[pairs[0] := pairs[1]], rest, k);
    }
  }

  lemma PairKeys(pairs: seq<Bytes>)
    requires |pairs| >= 2
    ensures Keys(MSet(pairs)) == [pairs[0]] + Keys(MSet(pairs[2..]))
  {
    var all, rest := Keys(MSet(pairs)), Keys(MSet(pairs[2..]));
    assert |all| == |rest| + 1 && all[0] == pairs[0];
    forall i: nat | i < |rest| ensures all[i + 1] == rest[i] {
      KeyAt(pairs, i + 1);
      KeyAt(pairs[2..], i);
    }
  }

  lemma KeyAt(pairs: seq<Bytes>, i: nat)
    requires 2 * i + 1 < |pairs|
    ensures Keys(MSet(pairs))[i] == pairs[2 * i]
  {
  }

  lemma AddsOnly(f: Frame, s: Store, k: Bytes)
    requires k !in s && k in Dispatch(f, s)
    ensures CommandOf(f).Some? && k in Added(CommandOf(f).value)
  {
    hide CommandOf, After;
    if CommandOf(f).Some? {
      RunIsApply(f, s);
      var c := CommandOf(f).value;
      if c.MSet? {
        SetPairsAdds(s, c.pairs, k);
      }
    }
  }

  /** A command's keys are among its arguments. */
  lemma AddedIsArgument(f: Frame, k: Bytes)
    requires CommandOf(f).Some? && k in Added(CommandOf(f).value)
    ensures f.Array? && Bulk(k) in f.items
  {
    var args, c := Args(f).value, CommandOf(f).value;
    assert forall i :: 0 <= i < |args| ==> f.items[i] == Bulk(args[i]);
    if c.MSet? {
      var i :| 0 <= i < |Keys(c)| && Keys(c)[i] == k;
      assert args[2 * i + 1] == k;
    } else if c.Rename? {
      assert args[2] == k;
    } else {
      assert args[1] == k;
    }
  }

  /** With the key last, behind a star, only RENAME onto it is left. */
  lemma OnlyRename(f: Frame, k: Bytes)
    requires CommandOf(f).Some? && k in Added(CommandOf(f).value) && KeyLast(f.items, k)
    ensures CommandOf(f).value.Rename? && CommandOf(f).value.dst == k != CommandOf(f).value.src
  {
    var args, c, last := Args(f).value, CommandOf(f).value, |f.items| - 1;
    assert forall i :: 0 <= i < |args| ==> f.items[i] == Bulk(args[i]);
    if c.MSet? {
      NotLastInPairs(f, k);
    } else if c.Rename? {
      assert args[2] == k && args[1] == c.src && 1 < last;
    } else {
      assert args[1] == k;
      if last == 1 {
        NameHasNoStar(args[0]);
      }
    }
  }

  /** MSET's last argument is a value. */
  lemma NotLastInPairs(f: Frame, k: Bytes)
    requires CommandOf(f).Some? && CommandOf(f).value.MSet? && KeyLast(f.items, k)
    ensures k !in Keys(CommandOf(f).value)
  {
    var args, c := Args(f).value, CommandOf(f).value;
    forall i | 0 <= i < |Keys(c)| ensures Keys(c)[i] != k {
      assert f.items[2 * i + 1] == Bulk(args[2 * i + 1]) && args[2 * i + 1] == Keys(c)[i];
    }
  }

  lemma NameHasNoStar(raw: Bytes)
    requires UpperName(raw) == Some(INCR)
    ensures 42 !in raw
  {
    forall i | 0 <= i < |raw| ensures raw[i] != 42 {
      assert Upper(raw[i]) == UpperName(raw).value[i] == INCR[i];
    }
  }

  /** The new key is missing, or an old one is. */
  ghost predicate Lost(img: Store, s: Store, k: Bytes)
  {
    k !in s || exists x :: x in img && x !in s
  }

  lemma CrossingLoses(f: Frame, img: Store, k: Bytes)
    requires k !in img && (Args(f).Some? ==> KeyLast(f.items, k))
    ensures Lost(img, Dispatch(f, img), k)
  {
    hide CommandOf, After, KeyLast, Keys;
    if k in Dispatch(f, img) {
      AddsOnly(f, img, k);
      CommandHasArgs(f);
      OnlyRename(f, k);
      RunIsApply(f, img);
      assert CommandOf(f).value.src in img;
    }
  }

  lemma CommandHasArgs(f: Frame)
    requires CommandOf(f).Some?
    ensures Args(f).Some?
  {
  }

  lemma {:induction false} FreeFold(s: Store, fs: seq<Frame>, k: Bytes)
    requires k !in s && forall f :: f in fs ==> Free(f, k)
    ensures k !in Fold(s, fs)
  {
    hide CommandOf, After, Keys;
    if fs != [] {
      var front, f := fs[..|fs| - 1], fs[|fs| - 1];
      assert f in fs;
      FreeFold(s, front, k);
      if k in Dispatch(f, Fold(s, front)) {
        AddsOnly(f, Fold(s, front), k);
        AddedIsArgument(f, k);
      }
    }
  }

  lemma {:induction false} InertFold(s: Store, fs: seq<Frame>)
    requires forall f :: f in fs ==> !f.Array?
    ensures Fold(s, fs) == s
  {
    if fs != [] {
      InertFold(s, fs[..|fs| - 1]);
      assert fs[|fs| - 1] in fs;
    }
  }

  // ----- the whole scan -----

  /** Bytes without a star hold no command and no marker. */
  lemma {:induction false} NoStar(b: Bytes, p: Pending)
    requires 42 !in b
    ensures p.Some? ==> ScanBytes(b, p).applied == []
    ensures forall f :: f in ScanBytes(b, p).applied ==> !f.Array?
    decreases |b|
  {
    hide ParseFrame;
    if ParseFrame(b).Parsed? {
      var Parsed(f, n) := ParseFrame(b);
      NotAnArray(b);
      NoStar(b[n..], Feed(p, f).pending);
    }
  }

  lemma NotAnArray(b: Bytes)
    requires 42 !in b && ParseFrame(b).Parsed?
    ensures !ParseFrame(b).value.Array?
  {
    hide ParseItems;
  }

  lemma AfterFirst(k: Bytes, m: nat)
    requires Letters(k) && 0 < m <= |Encode(IncrFrame(k), Resp2)|
    ensures 42 !in Encode(IncrFrame(k), Resp2)[m..]
  {
    hide Encode;
    var e := Encode(IncrFrame(k), Resp2);
    forall i | 0 <= i < |e[m..]| ensures e[m..][i] != 42 {
      BytesOf(k, m + i);
    }
  }

  /** What a completed frame and the starless bytes behind it are scanned as. */
  lemma ScanCompleted(s: Bytes, p: Pending, img: Store, k: Bytes)
    requires ParseFrame(s).Parsed? && 42 !in s[ParseFrame(s).used..] && k !in img
    requires Args(ParseFrame(s).value).Some? ==> KeyLast(ParseFrame(s).value.items, k)
    requires p.Some? ==> forall f :: f in p.value ==> Free(f, k)
    ensures Lost(img, Fold(img, ScanBytes(s, p).applied), k)
  {
    hide ParseFrame, MarkerOf, Dispatch, Args, KeyLast;
    var Parsed(g, n) := ParseFrame(s);
    FoldNothing(img);
    if Feed(p, g).Fed? {
      var Fed(q, out) := Feed(p, g);
      var rest := ScanBytes(s[n..], q).applied;
      NoStar(s[n..], q);
      FoldAppend(img, out, rest);
      InertFold(Fold(img, out), rest);
      if p.Some? && q.None? {
        FreeFold(img, out, k);
      } else if q.None? {
        FoldSnoc(img, [], g);
        assert [] + [g] == [g];
        CrossingLoses(g, img, k);
      }
    }
  }

  /** A leftover that replay would cut somewhere, followed by the INCR: the key does not appear, or
      another disappears. */
  lemma {:induction false} CrossScan(t: Bytes, p: Pending, img: Store, k: Bytes)
    requires ScanBytes(t, p).valid == 0 && (t == [] ==> p.Some?) && Letters(k) && |t| < |k| && k !in img
    requires p.Some? ==> forall f :: f in p.value ==> Free(f, k)
    ensures Lost(img, Fold(img, ScanBytes(t + Encode(IncrFrame(k), Resp2), p).applied), k)
    decreases |t|
  {
    hide ParseFrame, Encode, Feed, Fold, IncrFrame;
    var e := Encode(IncrFrame(k), Resp2);
    FoldNothing(img);
    if ParseFrame(t).Incomplete? {
      if t == [] {
        assert t + e == e;
        OpenIncr(p.value, k);
      } else if ParseFrame(t + e).Parsed? {
        CrossingFrame(t, k);
        var n := ParseFrame(t + e).used;
        assert (t + e)[n..] == e[n - |t|..];
        AfterFirst(k, n - |t|);
        ScanCompleted(t + e, p, img, k);
      }
    } else {
      FrameStable(t, e);
      if ParseFrame(t).Parsed? && Feed(p, ParseFrame(t).value).Fed? {
        var Parsed(f, n) := ParseFrame(t);
        var q := Feed(p, f).pending;
        FrameShort(t, k);
        PendingFree(p, f, k);
        DropOfAppend(t, e, n);
        NothingReleased(p, f);
        CrossScan(t[n..], q, img, k);
        var rest := ScanBytes(t[n..] + e, q).applied;
        assert [] + rest == rest;
      }
    }
  }

  lemma PendingFree(p: Pending, f: Frame, k: Bytes)
    requires Feed(p, f).Fed? && Free(f, k) && (p.Some? ==> forall g :: g in p.value ==> Free(g, k))
    ensures Feed(p, f).pending.Some? ==> forall g :: g in Feed(p, f).pending.value ==> Free(g, k)
  {
  }

  lemma OpenIncr(held: seq<Frame>, k: Bytes)
    requires Letters(k)
    ensures ScanBytes(Encode(IncrFrame(k), Resp2), Some(held)).applied == []
  {
    hide ParseFrame, Encode;
    var e := Encode(IncrFrame(k), Resp2);
    StarIsArray(k);
    assert e[|e|..] == [];
    NothingParsed();
    ScanStops([], Feed(Some(held), IncrFrame(k)).pending);
  }

  // ----- exactly when a leftover is harmless -----

  ghost function LongestKey(s: Store): (n: nat)
    ensures forall k :: k in s ==> |k| <= n
    ensures n == 0 || exists k :: k in s && |k| == n
    decreases |s|
  {
    if s == map[] then 0
    else
      var k :| k in s;
      var n := LongestKey(s - {k});
      assert forall x :: x in s ==> x == k || x in s - {k};
      if |k| > n then |k| else n
  }

  /** No key and no file reaches the largest length an allocation can have. */
  predicate Fits(img: Store, lead: Bytes)
  {
    |lead| < I64_MAX && forall k :: k in img ==> |k| < I64_MAX
  }

  lemma IncrIsClosed(img: Store, k: Bytes)
    requires Letters(k) && k !in img
    ensures ClosedLog([IncrFrame(k)]) && EncodeAll([IncrFrame(k)]) == Encode(IncrFrame(k), Resp2)
    ensures !Lost(img, Fold(img, [IncrFrame(k)]), k)
  {
    hide Encode, After, CommandOf, MarkerOf, Fold, Bracket;
    var f := IncrFrame(k);
    IncrMeans(k);
    MarkerIsNoCommand(f);
    PlainBrackets(f);
    assert [f][1..] == [] && EncodeAll([]) == [];
    FoldNothing(img);
    FoldSnoc(img, [], f);
    assert [] + [f] == [f];
    RunIsApply(f, img);
  }

  lemma IncrMeans(k: Bytes)
    ensures CommandOf(IncrFrame(k)) == Some(Incr(k))
  {
    assert UpperName(INCR).value == INCR && Args(IncrFrame(k)).value == [INCR, k] && [INCR, k][1..] == [k];
  }

  lemma TornLosesIncr(g: nat, img: Store, lead: Bytes, k: Bytes)
    requires ScanBytes(lead, None).valid < |lead| < |k| && Letters(k) && k !in img
    requires Fold(img, ScanBytes(lead, None).applied) == img
    ensures !RestartsRight(g, img, lead, [IncrFrame(k)])
  {
    hide ScanBytes, Fold, Encode, IncrFrame;
    var r, e := ScanBytes(lead, None), Encode(IncrFrame(k), Resp2);
    var kept, t := lead[..r.valid], lead[r.valid..];
    assert kept + t == lead;
    RepairedFile(lead, t);
    CrossScan(t, None, img, k);
    RepairedFile(lead, t + e);
    assert kept + (t + e) == lead + e && (lead + e)[0..] == lead + e;
    FoldAppend(img, r.applied, ScanBytes(t + e, None).applied);
    IncrIsClosed(img, k);
  }

  /** A rewrite onto a file that already held bytes restarts right, for every log that can follow, if and
      only if those bytes end where replay would cut and replaying them over the snapshot changes
      nothing. */
  lemma StaleHarmlessIff(g: nat, img: Store, lead: Bytes)
    requires Fits(img, lead)
    ensures (forall log :: ClosedLog(log) ==> RestartsRight(g, img, lead, log))
       <==> ScanBytes(lead, None).valid == |lead| && Fold(img, ScanBytes(lead, None).applied) == img
  {
    hide ScanBytes, Fold, Recovered, ClosedLog, IncrFrame;
    var scan := ScanBytes(lead, None);
    NothingIsClosed();
    if scan.valid == |lead| && Fold(img, scan.applied) == img {
      forall log | ClosedLog(log) ensures RestartsRight(g, img, lead, log) {
        LeadThenLog(g, img, lead, log);
      }
    } else if Fold(img, scan.applied) != img {
      LeadAlone(g, img, lead);
    } else {
      var n := LongestKey(img);
      var k: Bytes := seq(1 + if n < |lead| then |lead| else n, _ => 97);
      IncrIsClosed(img, k);
      TornLosesIncr(g, img, lead, k);
    }
  }

  lemma LeadAlone(g: nat, img: Store, lead: Bytes)
    requires Fold(img, ScanBytes(lead, None).applied) != img
    ensures !RestartsRight(g, img, lead, [])
  {
    hide ScanBytes;
    NothingEncoded();
    FoldNothing(img);
    assert lead + [] == lead && lead[0..] == lead;
  }
}
