// What becomes of a frame the parser could not finish: when more bytes decide it, when none ever can,
// and when the parser panics. crates/protocol/src/codec.rs:105-183.
module RespFrontier {
  import opened Bytes
  import opened Frames
  import opened Resp

  // ----- where the parser stands -----

  /** Where the innermost frame begins that the parser was reading when it stopped. */
  function Frontier(buf: Bytes): (n: nat)
    requires !ParseFrame(buf).Parsed?
    ensures n <= |buf|
    decreases |buf|, 0
  {
    if buf != [] && buf[0] == 42 && ParseNumber(buf, BadArrayLength).Parsed? then
      var Parsed(count, head) := ParseNumber(buf, BadArrayLength);
      head + ItemsFrontier(buf[head..], if count < 0 then 0 else count)
    else 0
  }

  function ItemsFrontier(buf: Bytes, count: nat): (n: nat)
    requires !ParseItems(buf, count).Parsed?
    ensures n <= |buf|
    decreases |buf|, 1
  {
    match ParseFrame(buf)
    case Parsed(_, used) => used + ItemsFrontier(buf[used..], count - 1)
    case _ => Frontier(buf)
  }

  /** A complete bulk header that announces less than -1. */
  predicate NegativeBulk(b: Bytes)
  {
    && b != [] && b[0] == 36
    && ParseNumber(b, BadBulkLength).Parsed? && ParseNumber(b, BadBulkLength).value < -1
  }

  /** One whose length, as a `usize`, wraps round when the header and the line end are added. */
  predicate WrapsRound(b: Bytes)
  {
    NegativeBulk(b) && ParseNumber(b, BadBulkLength).value >= -(ParseNumber(b, BadBulkLength).used as int + 2)
  }

  /** The frame at the frontier is the one whose parse decides the whole. */
  lemma {:induction false} StopsThere(buf: Bytes)
    requires !ParseFrame(buf).Parsed?
    ensures var b := buf[Frontier(buf)..];
            && ParseFrame(b) == ParseFrame(buf)
            && !(b != [] && b[0] == 42 && ParseNumber(b, BadArrayLength).Parsed?)
    decreases |buf|, 0
  {
    hide ParseFrame, ParseItems, ParseNumber, ItemsFrontier;
    if buf != [] && buf[0] == 42 && ParseNumber(buf, BadArrayLength).Parsed? {
      var Parsed(count, head) := ParseNumber(buf, BadArrayLength);
      ArrayStops(buf);
      var n := ItemsFrontier(buf[head..], if count < 0 then 0 else count);
      ItemsStopThere(buf[head..], if count < 0 then 0 else count);
      assert buf[head..][n..] == buf[head + n..];
    } else {
      assert buf[0..] == buf;
    }
  }

  /** The same failure, one level up. */
  predicate SameStop(a: Parse<Frame>, b: Parse<seq<Frame>>)
  {
    match a
    case Incomplete => b.Incomplete?
    case Failed(e) => b == Failed(e)
    case Panicked => b.Panicked?
    case Parsed(_, _) => false
  }

  lemma ArrayStops(buf: Bytes)
    requires !ParseFrame(buf).Parsed? && buf != [] && buf[0] == 42 && ParseNumber(buf, BadArrayLength).Parsed?
    ensures var Parsed(count, head) := ParseNumber(buf, BadArrayLength);
            SameStop(ParseFrame(buf), ParseItems(buf[head..], if count < 0 then 0 else count))
  {
    hide ParseItems, ParseNumber, ParseLine;
  }

  lemma {:induction false} ItemsStopThere(buf: Bytes, count: nat)
    requires !ParseItems(buf, count).Parsed?
    ensures var b := buf[ItemsFrontier(buf, count)..];
            && SameStop(ParseFrame(b), ParseItems(buf, count))
            && !(b != [] && b[0] == 42 && ParseNumber(b, BadArrayLength).Parsed?)
    decreases |buf|, 1
  {
    hide ParseFrame, ParseNumber, Frontier;
    if ParseFrame(buf).Parsed? {
      var used := ParseFrame(buf).used;
      var n := ItemsFrontier(buf[used..], count - 1);
      ItemsStopThere(buf[used..], count - 1);
      assert buf[used..][n..] == buf[used + n..];
    } else {
      StopsThere(buf);
    }
  }

  lemma LeafStops(b: Bytes)
    requires !(b != [] && b[0] == 42 && ParseNumber(b, BadArrayLength).Parsed?)
    ensures ParseFrame(b).Panicked? <==> WrapsRound(b)
    ensures ParseFrame(b).Incomplete? && NegativeBulk(b) ==> !WrapsRound(b)
  {
    hide ParseItems, ParseNumber, ParseLine;
  }

  /** The parser panics exactly when it stopped at a bulk header below -1 whose length wraps round: however
      deep in arrays it stands, and whatever was read before it. */
  lemma PanicsIff(buf: Bytes)
    ensures ParseFrame(buf).Panicked? <==> !ParseFrame(buf).Parsed? && WrapsRound(buf[Frontier(buf)..])
  {
    hide ParseFrame, Frontier, WrapsRound;
    if !ParseFrame(buf).Parsed? {
      StopsThere(buf);
      LeafStops(buf[Frontier(buf)..]);
    }
  }

  // ----- headers no bytes can complete -----

  lemma NegativeWaits(b: Bytes, more: Bytes)
    requires NegativeBulk(b) && ParseFrame(b).Incomplete?
    ensures ParseFrame(b + more).Incomplete?
  {
    hide ParseItems, ParseLine, ParseI64, Utf8;
    LineStable(b, more);
  }

  /** A bulk header lower still: the connection asks for more bytes for ever, whatever arrives. */
  lemma {:induction false} WaitsForEver(buf: Bytes, more: Bytes)
    requires ParseFrame(buf).Incomplete? && NegativeBulk(buf[Frontier(buf)..])
    ensures ParseFrame(buf + more).Incomplete?
    decreases |buf|, 0
  {
    hide ParseItems, ParseLine, ParseI64, Utf8, NegativeBulk;
    if buf != [] && buf[0] == 42 && ParseNumber(buf, BadArrayLength).Parsed? {
      var Parsed(count, head) := ParseNumber(buf, BadArrayLength);
      var n := ItemsFrontier(buf[head..], if count < 0 then 0 else count);
      assert buf[head..][n..] == buf[head + n..];
      LineStable(buf, more);
      DropOfAppend(buf, more, head);
      ItemsWaitForEver(buf[head..], if count < 0 then 0 else count, more);
    } else {
      assert buf[0..] == buf;
      NegativeWaits(buf, more);
    }
  }

  lemma {:induction false} ItemsWaitForEver(buf: Bytes, count: nat, more: Bytes)
    requires ParseItems(buf, count).Incomplete? && NegativeBulk(buf[ItemsFrontier(buf, count)..])
    ensures ParseItems(buf + more, count).Incomplete?
    decreases |buf|, 1
  {
    hide ParseFrame, NegativeBulk, Frontier;
    if ParseFrame(buf).Parsed? {
      var used := ParseFrame(buf).used;
      var n := ItemsFrontier(buf[used..], count - 1);
      assert buf[used..][n..] == buf[used + n..];
      FrameStable(buf, more);
      DropOfAppend(buf, more, used);
      ItemsWaitForEver(buf[used..], count - 1, more);
    } else {
      WaitsForEver(buf, more);
    }
  }

  // ----- and bytes that settle every other frame -----

  const STOP: Bytes := [0]

  /** Refused, or read up to a last byte that no frame begins with. */
  predicate Settled<T>(r: Parse<T>, s: Bytes)
  {
    r.Failed? || r.Panicked? || (r.Parsed? && r.used <= |s| && s[r.used..] == STOP)
  }

  /** A line end behind something that is no number, or the bytes a bulk string still lacks. */
  function Settlement(b: Bytes): (more: Bytes)
  {
    if b == [] then STOP
    else if b[0] == 36 && ParseNumber(b, BadBulkLength).Parsed? && ParseNumber(b, BadBulkLength).value >= 0 then
      var Parsed(len, head) := ParseNumber(b, BadBulkLength);
      seq(if head + len + 2 > |b| then head + len + 2 - |b| else 0, _ => 0) + STOP
    else [0] + CRLF + STOP
  }

  lemma NotANumber(s: Bytes)
    requires s != [] && s[|s| - 1] == 0
    ensures ParseI64(s).None?
  {
    StrangeByte(s, |s| - 1);
  }

  /** The line that was open ends in the zero byte. */
  lemma LineSettles(b: Bytes)
    requires b != [] && ParseLine(b).Incomplete?
    ensures var s := b + ([0] + CRLF + STOP);
            && ParseLine(s).Parsed? && s[ParseLine(s).used..] == STOP
            && ParseLine(s).value != [] && ParseLine(s).value[|ParseLine(s).value| - 1] == 0
  {
    var text := b[1..] + [0];
    var s := b + ([0] + CRLF + STOP);
    OpenLine(b[1..]);
    assert s == [b[0]] + text + CRLF + STOP;
    LineOf(b[0], text, STOP);
    assert s[1 + |text| + 2..] == STOP;
  }

  lemma OpenLine(a: Bytes)
    requires FindCrlf(a).None?
    ensures !HasCrlf(a + [0])
  {
    var t := a + [0];
    assert forall i :: 0 <= i < |a| ==> t[i] == a[i];
    assert forall i :: 0 <= i < |t| - 1 ==> !(t[i] == CR && t[i + 1] == LF);
  }

  lemma BulkSettles(b: Bytes)
    requires b != [] && b[0] == 36 && ParseFrame(b).Incomplete? && ParseNumber(b, BadBulkLength).Parsed? && !NegativeBulk(b)
    ensures Settled(ParseFrame(b + Settlement(b)), b + Settlement(b))
  {
    hide ParseItems, ParseLine, ParseI64, Utf8;
    LineStable(b, Settlement(b));
  }

  lemma StopFails()
    ensures ParseFrame(STOP).Failed?
  {
  }

  lemma LeafSettles(b: Bytes)
    requires ParseFrame(b).Incomplete? && !NegativeBulk(b)
    requires !(b != [] && b[0] == 42 && ParseNumber(b, BadArrayLength).Parsed?)
    ensures Settled(ParseFrame(b + Settlement(b)), b + Settlement(b))
  {
    hide ParseFrame, ParseNumber, ParseLine;
    if b == [] {
      assert b + STOP == STOP;
      StopFails();
      assert Settled(ParseFrame(STOP), STOP);
    } else if b[0] == 36 && ParseNumber(b, BadBulkLength).Parsed? {
      BulkSettles(b);
    } else {
      WaitsForLine(b);
      LineSettles(b);
      ReadsLine(b + Settlement(b));
    }
  }

  /** Such a frame waits for the end of its first line. */
  lemma WaitsForLine(b: Bytes)
    requires b != [] && ParseFrame(b).Incomplete?
    requires !(b[0] == 36 && ParseNumber(b, BadBulkLength).Parsed?) && !(b[0] == 42 && ParseNumber(b, BadArrayLength).Parsed?)
    ensures ParseLine(b).Incomplete?
  {
    hide ParseItems, ParseLine, ParseI64, Utf8;
  }

  lemma ReadsLine(s: Bytes)
    requires s != [] && ParseLine(s).Parsed? && s[ParseLine(s).used..] == STOP
    requires ParseLine(s).value != [] && ParseLine(s).value[|ParseLine(s).value| - 1] == 0
    ensures Settled(ParseFrame(s), s)
  {
    hide ParseItems, ParseLine, ParseI64, Utf8;
    NotANumber(ParseLine(s).value);
  }

  /** Settling the innermost frame settles the arrays around it: the next item, if one is due, begins
      with the byte that is refused. */
  lemma {:induction false} FrameSettles(buf: Bytes)
    requires ParseFrame(buf).Incomplete? && !NegativeBulk(buf[Frontier(buf)..])
    ensures var s := buf + Settlement(buf[Frontier(buf)..]);
            Settled(ParseFrame(s), s)
    decreases |buf|, 0
  {
    hide ParseItems, ParseLine, ParseI64, Utf8, NegativeBulk, Settlement;
    var more := Settlement(buf[Frontier(buf)..]);
    if buf != [] && buf[0] == 42 && ParseNumber(buf, BadArrayLength).Parsed? {
      var Parsed(count, head) := ParseNumber(buf, BadArrayLength);
      var n := ItemsFrontier(buf[head..], if count < 0 then 0 else count);
      assert buf[head..][n..] == buf[head + n..];
      LineStable(buf, more);
      DropOfAppend(buf, more, head);
      ItemsSettle(buf[head..], if count < 0 then 0 else count);
      var items := ParseItems(buf[head..] + more, if count < 0 then 0 else count);
      if items.Parsed? {
        assert (buf + more)[head + items.used..] == (buf[head..] + more)[items.used..];
      }
    } else {
      assert buf[0..] == buf;
      LeafSettles(buf);
    }
  }

  lemma {:induction false} ItemsSettle(buf: Bytes, count: nat)
    requires ParseItems(buf, count).Incomplete? && !NegativeBulk(buf[ItemsFrontier(buf, count)..])
    ensures var s := buf + Settlement(buf[ItemsFrontier(buf, count)..]);
            Settled(ParseItems(s, count), s)
    decreases |buf|, 1
  {
    hide ParseFrame, NegativeBulk, Frontier, Settlement;
    var more := Settlement(buf[ItemsFrontier(buf, count)..]);
    var s := buf + more;
    if ParseFrame(buf).Parsed? {
      var used := ParseFrame(buf).used;
      var n := ItemsFrontier(buf[used..], count - 1);
      assert buf[used..][n..] == buf[used + n..];
      FrameStable(buf, more);
      DropOfAppend(buf, more, used);
      ItemsSettle(buf[used..], count - 1);
      var items := ParseItems(buf[used..] + more, count - 1);
      if items.Parsed? {
        assert s[used + items.used..] == (buf[used..] + more)[items.used..];
      }
    } else {
      FrameSettles(buf);
      StopFails();
    }
  }

  /** Waiting for more bytes is of use exactly when no bulk header below -1 stands where the parser
      stopped. */
  lemma DecidableIff(buf: Bytes)
    requires ParseFrame(buf).Incomplete?
    ensures (exists more :: !ParseFrame(buf + more).Incomplete?) <==> !NegativeBulk(buf[Frontier(buf)..])
  {
    hide ParseFrame, Frontier, NegativeBulk;
    if NegativeBulk(buf[Frontier(buf)..]) {
      forall more ensures ParseFrame(buf + more).Incomplete? {
        WaitsForEver(buf, more);
      }
    } else {
      FrameSettles(buf);
    }
  }

  // ----- the smallest of each -----

  /** "$-2\r\n" panics, and so does a request with it inside. */
  lemma MinusTwoPanics()
    ensures ParseFrame([36, 45, 50, 13, 10]).Panicked?
    ensures ParseFrame([42, 49, 13, 10, 36, 45, 50, 13, 10]).Panicked?
  {
    hide ParseItems, ParseLine, ParseI64, Utf8;
    var b: Bytes := [36, 45, 50, 13, 10];
    assert PrintInt(-2) == [45, 50];
    assert b == [36] + PrintInt(-2) + CRLF + [];
    NumberOf(36, -2, [], BadBulkLength);
    InOne(b);
    assert [42, 49, 13, 10] + b == [42, 49, 13, 10, 36, 45, 50, 13, 10];
  }

  lemma InOne(b: Bytes)
    ensures var one: Bytes := [42, 49, 13, 10];
            ParseFrame(b).Panicked? ==> ParseFrame(one + b).Panicked?
    ensures ParseFrame([42, 49, 13, 10] + b) == AsArray(ParseItems(b, 1), 4)
  {
    hide ParseFrame, ParseLine, ParseI64, Utf8;
    var buf := [42, 49, 13, 10] + b;
    assert PrintInt(1) == [49];
    assert buf == [42] + PrintInt(1) + CRLF + b;
    NumberOf(42, 1, b, BadArrayLength);
    assert buf[4..] == b;
    ArrayParse(buf, 1, 4);
  }

  /** "$-9\r\n" waits for ever. */
  lemma MinusNineWaits(more: Bytes)
    ensures ParseFrame([36, 45, 57, 13, 10] + more).Incomplete?
  {
    hide ParseItems, ParseLine, ParseI64, Utf8;
    assert PrintInt(-9) == [45, 57];
    assert [36, 45, 57, 13, 10] + more == [36] + PrintInt(-9) + CRLF + more;
    NumberOf(36, -9, more, BadBulkLength);
  }
}
