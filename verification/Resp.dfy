// The RESP wire codec: crates/protocol/src/codec.rs.
module Resp {
  import opened Bytes
  import opened Frames

  datatype Protocol = Resp2 | Resp3

  const CRLF: Bytes := [CR, LF]
  const NULL2: Bytes := [36, 45, 49, 13, 10]   // "$-1\r\n"
  const NULL3: Bytes := [95, 13, 10]           // "_\r\n"

  // ----- encoding -----

  /** The type byte and decimal count that open a nested frame. */
  function Header(f: Frame, p: Protocol): (r: Bytes)
    requires Nested(f)
  {
    var (tag, count) := match f
      case Array(items) => (42, |items|)
      case Push(items) => (if p.Resp2? then 42 else 62, |items|)
      case Map(pairs) => (if p.Resp2? then 42 else 37, if p.Resp2? then 2 * |pairs| else |pairs|);
    [tag] + PrintInt(count) + CRLF
  }

  function Encode(f: Frame, p: Protocol): (r: Bytes)
    decreases f
  {
    match f
    case Simple(s) => [PLUS] + s + CRLF
    case Error(s) => [MINUS] + s + CRLF
    case Integer(n) => [58] + PrintInt(n) + CRLF
    case Bulk(b) => [36] + PrintInt(|b|) + CRLF + b + CRLF
    case Null => if p.Resp2? then NULL2 else NULL3
    case _ => Header(f, p) + EncodeChildren(f, Children(f), p)
  }

  /** The encodings of `fs`, which sit inside `parent`, one after another. */
  function EncodeChildren(parent: Frame, fs: seq<Frame>, p: Protocol): (r: Bytes)
    requires forall i :: 0 <= i < |fs| ==> fs[i] < parent
    decreases parent, |fs|
  {
    if fs == [] then [] else Encode(fs[0], p) + EncodeChildren(parent, fs[1..], p)
  }

  // ----- decoding -----

  datatype ParseError = BadUtf8 | BadInteger | BadBulkLength | BadArrayLength | UnknownType(tag: byte)

  /** `Panicked` is the slice-index panic that a bulk header below -1 leads to. */
  datatype Parse<+T> =
    | Incomplete
    | Parsed(value: T, used: nat)
    | Failed(error: ParseError)
    | Panicked

  /** The index of the CR of the first CR LF pair. */
  function FindCrlf(s: Bytes): (r: Option<nat>)
    ensures r.Some? ==> r.value + 1 < |s| && s[r.value] == CR && s[r.value + 1] == LF
    ensures r.Some? ==> forall j :: 0 <= j < r.value ==> !(s[j] == CR && s[j + 1] == LF)
    ensures r.None? ==> forall j :: 0 <= j < |s| - 1 ==> !(s[j] == CR && s[j + 1] == LF)
  {
    if |s| < 2 then None
    else if s[0] == CR && s[1] == LF then Some(0)
    else match FindCrlf(s[1..])
      case None =>
        assert forall j :: 0 < j < |s| - 1 ==> s[j] == s[1..][j - 1] && s[j + 1] == s[1..][j];
        None
      case Some(i) =>
        assert forall j :: 0 < j < i + 1 ==> s[j] == s[1..][j - 1] && s[j + 1] == s[1..][j];
        Some(i + 1)
  }

  /** The text line after the type byte, with the bytes it takes including its CR LF. */
  function ParseLine(buf: Bytes): (r: Parse<Bytes>)
    requires buf != []
    ensures r.Incomplete? || (r.Parsed? && 3 <= r.used <= |buf| && r.value == buf[1..r.used - 2])
  {
    match FindCrlf(buf[1..])
    case None => Incomplete
    case Some(i) => Parsed(buf[1..1 + i], 1 + i + 2)
  }

  /** A signed decimal header line. */
  function ParseNumber(buf: Bytes, bad: ParseError): (r: Parse<int>)
    requires buf != []
    ensures r.Parsed? ==> 3 <= r.used <= |buf| && I64_MIN <= r.value <= I64_MAX
    ensures !r.Panicked?
  {
    match ParseLine(buf)
    case Parsed(line, used) =>
      if !Utf8(line) then Failed(BadUtf8)
      else (match ParseI64(line)
            case None => Failed(bad)
            case Some(n) => Parsed(n, used))
    case _ => Incomplete
  }

  /** The body of a bulk string whose header took `head` bytes and announced `len`.
      `len as usize` sends a length below -1 to 2^64 + len: adding the header then either wraps
      round, and the slice panics, or exceeds every possible buffer. */
  function ParseBulkBody(buf: Bytes, len: int, head: nat): (r: Parse<Frame>)
    requires head <= |buf|
    ensures r.Parsed? ==> head <= r.used <= |buf|
  {
    if len == -1 then Parsed(Null, head)
    else if len < -1 then (if len >= -(head + 2) then Panicked else Incomplete)
    else if |buf| < head + len + 2 then Incomplete
    else Parsed(Bulk(buf[head..head + len]), head + len + 2)
  }

  /** Wraps parsed items in an array whose header took `head` bytes. */
  function AsArray(items: Parse<seq<Frame>>, head: nat): (r: Parse<Frame>)
  {
    match items
    case Parsed(fs, used) => Parsed(Array(fs), head + used)
    case Failed(e) => Failed(e)
    case Panicked => Panicked
    case Incomplete => Incomplete
  }

  function ParseFrame(buf: Bytes): (r: Parse<Frame>)
    ensures r.Parsed? ==> 0 < r.used <= |buf|
    decreases |buf|, 0
  {
    if buf == [] then Incomplete
    else if buf[0] == PLUS || buf[0] == MINUS then
      match ParseLine(buf) {
        case Parsed(line, used) =>
          if !Utf8(line) then Failed(BadUtf8)
          else Parsed(if buf[0] == PLUS then Simple(line) else Error(line), used)
        case _ => Incomplete
      }
    else if buf[0] == 58 then
      match ParseNumber(buf, BadInteger) {
        case Parsed(n, used) => Parsed(Integer(n), used)
        case Failed(e) => Failed(e)
        case _ => Incomplete
      }
    else if buf[0] == 36 then
      match ParseNumber(buf, BadBulkLength) {
        case Parsed(len, head) => ParseBulkBody(buf, len, head)
        case Failed(e) => Failed(e)
        case _ => Incomplete
      }
    else if buf[0] == 42 then
      match ParseNumber(buf, BadArrayLength) {
        case Parsed(count, head) =>
          AsArray(ParseItems(buf[head..], if count < 0 then 0 else count), head)
        case Failed(e) => Failed(e)
        case _ => Incomplete
      }
    else Failed(UnknownType(buf[0]))
  }

  /** `count` frames in a row. */
  function ParseItems(buf: Bytes, count: nat): (r: Parse<seq<Frame>>)
    ensures r.Parsed? ==> r.used <= |buf| && |r.value| == count
    decreases |buf|, 1
  {
    if count == 0 then Parsed([], 0)
    else match ParseFrame(buf)
      case Parsed(item, used) =>
        (match ParseItems(buf[used..], count - 1)
         case Parsed(items, rest) => Parsed([item] + items, used + rest)
         case Failed(e) => Failed(e)
         case Panicked => Panicked
         case Incomplete => Incomplete)
      case Failed(e) => Failed(e)
      case Panicked => Panicked
      case Incomplete => Incomplete
  }

  lemma NothingParsed()
    ensures ParseFrame([]).Incomplete?
  {
  }

  // ----- a completed parse does not change when more bytes arrive -----

  lemma CrlfStable(a: Bytes, b: Bytes)
    requires FindCrlf(a).Some?
    ensures FindCrlf(a + b) == FindCrlf(a)
  {
    var i, s := FindCrlf(a).value, a + b;
    assert s[i] == a[i] && s[i + 1] == a[i + 1];
    assert forall j :: 0 <= j < |a| ==> s[j] == a[j];
  }

  lemma LineStable(a: Bytes, b: Bytes)
    requires a != [] && ParseLine(a).Parsed?
    ensures ParseLine(a + b) == ParseLine(a)
  {
    assert (a + b)[1..] == a[1..] + b;
    CrlfStable(a[1..], b);
    var used := ParseLine(a).used;
    assert (a + b)[1..used - 2] == a[1..used - 2];
  }

  lemma {:induction false} FrameStable(a: Bytes, b: Bytes)
    requires !ParseFrame(a).Incomplete?
    ensures ParseFrame(a + b) == ParseFrame(a)
    decreases |a|, 0
  {
    hide ParseLine, Utf8, ParseI64;
    if a == [] {
    } else if a[0] in {PLUS, MINUS, 58, 36, 42} {
      LineStable(a, b);
      if a[0] == 36 && ParseNumber(a, BadBulkLength).Parsed? {
        var Parsed(len, head) := ParseNumber(a, BadBulkLength);
        if len >= 0 {
          assert (a + b)[head..head + len] == a[head..head + len];
        }
      } else if a[0] == 42 && ParseNumber(a, BadArrayLength).Parsed? {
        var Parsed(count, head) := ParseNumber(a, BadArrayLength);
        DropOfAppend(a, b, head);
        ItemsStable(a[head..], b, if count < 0 then 0 else count);
      }
    }
  }

  lemma {:induction false} ItemsStable(a: Bytes, b: Bytes, count: nat)
    requires !ParseItems(a, count).Incomplete?
    ensures ParseItems(a + b, count) == ParseItems(a, count)
    decreases |a|, 1
  {
    hide ParseFrame;
    if count > 0 {
      FrameStable(a, b);
      if ParseFrame(a).Parsed? {
        var used := ParseFrame(a).used;
        DropOfAppend(a, b, used);
        ItemsStable(a[used..], b, count - 1);
      }
    }
  }

  // ----- the decoder undoes the encoder -----

  /** What a peer reads back: RESP2 sends maps and pushes as flat arrays. */
  function Flatten(f: Frame): (r: Frame)
    decreases f
  {
    if Nested(f) then Array(FlattenChildren(f, Children(f))) else f
  }

  function FlattenChildren(parent: Frame, fs: seq<Frame>): (r: seq<Frame>)
    requires forall i :: 0 <= i < |fs| ==> fs[i] < parent
    ensures |r| == |fs| && forall i :: 0 <= i < |fs| ==> r[i] == Flatten(fs[i])
    decreases parent, |fs|
  {
    if fs == [] then [] else [Flatten(fs[0])] + FlattenChildren(parent, fs[1..])
  }

  predicate HasCrlf(s: Bytes) { FindCrlf(s).Some? }

  /** Simple and error text holds no line end, and RESP3-only type bytes, which the decoder
      does not know, are not used. */
  predicate Readable(f: Frame, p: Protocol)
    decreases f
  {
    match f
    case Simple(s) => !HasCrlf(s)
    case Error(s) => !HasCrlf(s)
    case Null => p.Resp2?
    case Integer(_) => true
    case Bulk(_) => true
    case _ =>
      && (f.Array? || p.Resp2?)
      && forall i :: 0 <= i < |Children(f)| ==> Readable(Children(f)[i], p)
  }

  /** A line of text without CR LF is read back whole, whatever follows it. */
  lemma LineOf(tag: byte, text: Bytes, rest: Bytes)
    requires !HasCrlf(text)
    ensures ParseLine([tag] + text + CRLF + rest) == Parsed(text, 1 + |text| + 2)
  {
    var buf := [tag] + text + CRLF + rest;
    assert buf[1..] == text + CRLF + rest;
    assert buf[1..1 + |text|] == text;
    assert forall j :: 0 <= j < |text| ==> buf[1..][j] == text[j];
    assert buf[1..][|text|] == CR && buf[1..][|text| + 1] == LF;
    assert FindCrlf(buf[1..]) == Some(|text|);
  }

  /** A line with a CR LF inside is cut at the first one. */
  lemma LineCut(tag: byte, text: Bytes, rest: Bytes)
    requires HasCrlf(text)
    ensures ParseLine([tag] + text + CRLF + rest).Parsed?
    ensures |ParseLine([tag] + text + CRLF + rest).value| < |text|
  {
    var buf := [tag] + text + CRLF + rest;
    assert buf[1..] == text + (CRLF + rest);
    CrlfStable(text, CRLF + rest);
  }

  lemma NumberOf(tag: byte, n: int, rest: Bytes, bad: ParseError)
    requires I64_MIN <= n <= I64_MAX
    ensures ParseNumber([tag] + PrintInt(n) + CRLF + rest, bad) == Parsed(n, 1 + |PrintInt(n)| + 2)
  {
    ParseOfPrint(n);
    LineOf(tag, PrintInt(n), rest);
    AsciiIsUtf8(PrintInt(n));
  }

  lemma BulkOf(b: Bytes, rest: Bytes)
    requires |b| <= I64_MAX
    ensures ParseFrame(Encode(Bulk(b), Resp2) + rest) == Parsed(Bulk(b), |Encode(Bulk(b), Resp2)|)
  {
    hide ParseNumber, ParseLine, ParseItems, PrintInt, Utf8;
    var head, buf := [36] + PrintInt(|b|) + CRLF, Encode(Bulk(b), Resp2) + rest;
    assert buf == head + (b + CRLF + rest);
    NumberOf(36, |b|, b + CRLF + rest, BadBulkLength);
    assert buf[|head|..|head| + |b|] == b;
  }

  /** Frames that hold no other frame. */
  lemma LeafRoundTrip(f: Frame, p: Protocol, rest: Bytes)
    requires !Nested(f) && Typed(f) && Readable(f, p)
    ensures ParseFrame(Encode(f, p) + rest) == Parsed(f, |Encode(f, p)|)
  {
    match f
    case Simple(s) => LineOf(PLUS, s, rest);
    case Error(s) => LineOf(MINUS, s, rest);
    case Integer(n) => NumberOf(58, n, rest, BadInteger);
    case Bulk(b) => BulkOf(b, rest);
    case Null =>
      assert PrintInt(-1) == [45, 49];
      assert NULL2 + rest == [36] + PrintInt(-1) + CRLF + rest;
      NumberOf(36, -1, rest, BadBulkLength);
  }

  lemma ArrayParse(buf: Bytes, count: nat, head: nat)
    requires buf != [] && buf[0] == 42 && ParseNumber(buf, BadArrayLength) == Parsed(count, head)
    ensures ParseFrame(buf) == AsArray(ParseItems(buf[head..], count), head)
  {
    hide ParseItems, ParseNumber;
  }

  /** The header of a nested frame leads the decoder to its children. */
  lemma NestedParse(f: Frame, p: Protocol, rest: Bytes)
    requires Nested(f) && Typed(f) && (f.Array? || p.Resp2?)
    ensures ParseFrame(Encode(f, p) + rest)
         == AsArray(ParseItems(EncodeChildren(f, Children(f), p) + rest, |Children(f)|), |Header(f, p)|)
  {
    hide ParseFrame, ParseItems, EncodeChildren, PrintInt, ParseNumber;
    var fs := Children(f);
    var body := EncodeChildren(f, fs, p);
    var buf := Encode(f, p) + rest;
    assert Header(f, p) == [42] + PrintInt(|fs|) + CRLF;
    assert buf == [42] + PrintInt(|fs|) + CRLF + (body + rest);
    NumberOf(42, |fs|, body + rest, BadArrayLength);
    assert buf[|Header(f, p)|..] == body + rest;
    ArrayParse(buf, |fs|, |Header(f, p)|);
  }

  /** Parsing the encoding of a readable frame, with anything after it, gives the flattened
      frame and uses exactly the encoding. */
  lemma {:induction false} RoundTrip(f: Frame, p: Protocol, rest: Bytes)
    requires Typed(f) && Readable(f, p)
    ensures ParseFrame(Encode(f, p) + rest) == Parsed(Flatten(f), |Encode(f, p)|)
    decreases f
  {
    hide ParseFrame, ParseItems;
    if Nested(f) {
      NestedParse(f, p, rest);
      RoundTripItems(f, Children(f), p, rest);
    } else {
      LeafRoundTrip(f, p, rest);
    }
  }

  lemma {:induction false} RoundTripItems(parent: Frame, fs: seq<Frame>, p: Protocol, rest: Bytes)
    requires forall i :: 0 <= i < |fs| ==> fs[i] < parent && Typed(fs[i]) && Readable(fs[i], p)
    ensures ParseItems(EncodeChildren(parent, fs, p) + rest, |fs|)
         == Parsed(FlattenChildren(parent, fs), |EncodeChildren(parent, fs, p)|)
    decreases parent, |fs|
  {
    hide ParseFrame, Encode, Typed, Readable, Flatten;
    if fs != [] {
      var tail := EncodeChildren(parent, fs[1..], p) + rest;
      assert EncodeChildren(parent, fs, p) + rest == Encode(fs[0], p) + tail;
      RoundTrip(fs[0], p, tail);
      RoundTripItems(parent, fs[1..], p, rest);
      assert (Encode(fs[0], p) + tail)[|Encode(fs[0], p)|..] == tail;
    }
  }

  /** A proper prefix of an encoding always asks for more bytes: it is never an error and
      never some other frame. */
  lemma PrefixIncomplete(f: Frame, p: Protocol, n: nat)
    requires Typed(f) && Readable(f, p) && n < |Encode(f, p)|
    ensures ParseFrame(Encode(f, p)[..n]).Incomplete?
  {
    var e := Encode(f, p);
    RoundTrip(f, p, []);
    assert e + [] == e == e[..n] + e[n..];
    if !ParseFrame(e[..n]).Incomplete? {
      FrameStable(e[..n], e[n..]);
    }
  }

  /** Text with a line end inside, and the type bytes only RESP3 has. */
  lemma UnreadableLeaf(f: Frame, p: Protocol, rest: Bytes)
    requires Typed(f) && !Readable(f, p) && !(Nested(f) && (f.Array? || p.Resp2?))
    ensures ParseFrame(Encode(f, p) + rest).Parsed? ==> ParseFrame(Encode(f, p) + rest).value != Flatten(f)
  {
    hide ParseItems, EncodeChildren, PrintInt;
    if f.Simple? {
      LineCut(PLUS, f.text, rest);
    } else if f.Error? {
      LineCut(MINUS, f.text, rest);
    } else {
      var tag := (Encode(f, p) + rest)[0];
      assert tag == 95 || tag == 37 || tag == 62;
    }
  }

  lemma SomeUnreadable(f: Frame, p: Protocol)
    requires Nested(f) && (f.Array? || p.Resp2?) && Typed(f) && !Readable(f, p)
    ensures exists i :: 0 <= i < |Children(f)| && !Readable(Children(f)[i], p)
    ensures forall i :: 0 <= i < |Children(f)| ==> Typed(Children(f)[i])
  {
    hide Children;
  }

  /** An unreadable frame never comes back as itself. */
  lemma {:induction false} Unreadable(f: Frame, p: Protocol, rest: Bytes)
    requires Typed(f) && !Readable(f, p)
    ensures ParseFrame(Encode(f, p) + rest).Parsed? ==> ParseFrame(Encode(f, p) + rest).value != Flatten(f)
    decreases f
  {
    hide ParseFrame, ParseItems, Encode, EncodeChildren, Header;
    if Nested(f) && (f.Array? || p.Resp2?) {
      NestedParse(f, p, rest);
      SomeUnreadable(f, p);
      UnreadableItems(f, Children(f), p, rest);
      var items := ParseItems(EncodeChildren(f, Children(f), p) + rest, |Children(f)|);
      if items.Parsed? {
        var i :| 0 <= i < |Children(f)| && items.value[i] != Flatten(Children(f)[i]);
        assert FlattenChildren(f, Children(f))[i] == Flatten(Children(f)[i]);
      }
    } else {
      UnreadableLeaf(f, p, rest);
    }
  }

  lemma {:induction false} UnreadableItems(parent: Frame, fs: seq<Frame>, p: Protocol, rest: Bytes)
    requires forall i :: 0 <= i < |fs| ==> fs[i] < parent && Typed(fs[i])
    requires exists i :: 0 <= i < |fs| && !Readable(fs[i], p)
    ensures var r := ParseItems(EncodeChildren(parent, fs, p) + rest, |fs|);
            r.Parsed? ==> exists i :: 0 <= i < |fs| && r.value[i] != Flatten(fs[i])
    decreases parent, |fs|
  {
    hide ParseFrame, Encode, Flatten, Typed, Readable;
    var tail := EncodeChildren(parent, fs[1..], p) + rest;
    var buf := EncodeChildren(parent, fs, p) + rest;
    assert buf == Encode(fs[0], p) + tail;
    var r := ParseItems(buf, |fs|);
    if !Readable(fs[0], p) {
      Unreadable(fs[0], p, tail);
      assert r.Parsed? ==> r.value[0] == ParseFrame(buf).value;
    } else {
      RoundTrip(fs[0], p, tail);
      var i :| 0 <= i < |fs| && !Readable(fs[i], p);
      assert fs[1..][i - 1] == fs[i];
      UnreadableItems(parent, fs[1..], p, rest);
      assert buf[|Encode(fs[0], p)|..] == tail;
      var q := ParseItems(tail, |fs[1..]|);
      if q.Parsed? {
        var j :| 0 <= j < |fs[1..]| && q.value[j] != Flatten(fs[1..][j]);
        assert r.value[j + 1] == q.value[j] && fs[j + 1] == fs[1..][j];
      }
    }
  }

  /** The codec round-trips a frame exactly when the frame is readable. */
  lemma RoundTripIff(f: Frame, p: Protocol, rest: Bytes)
    requires Typed(f)
    ensures ParseFrame(Encode(f, p) + rest) == Parsed(Flatten(f), |Encode(f, p)|) <==> Readable(f, p)
  {
    if Readable(f, p) {
      RoundTrip(f, p, rest);
    } else {
      Unreadable(f, p, rest);
    }
  }

  /** "a\r\nb" as a simple string comes back as "a", with the rest left over. */
  lemma LineEndInside()
    ensures var f := Simple([97, 13, 10, 98]);
            Typed(f) && !Readable(f, Resp2) && ParseFrame(Encode(f, Resp2)) == Parsed(Simple([97]), 4)
  {
    var text: Bytes := [97, 13, 10, 98];
    AsciiIsUtf8(text);
    assert FindCrlf(text[1..]) == Some(0);
    assert Encode(Simple(text), Resp2) == [PLUS] + [97] + CRLF + [98, 13, 10];
    assert FindCrlf([97]).None?;
    LineOf(PLUS, [97], [98, 13, 10]);
    AsciiIsUtf8([97]);
  }

  // ----- the bytes themselves -----

  lemma LeafBytes(s: Bytes, n: int, p: Protocol)
    ensures Encode(Simple(s), p) == [43] + s + [13, 10] && Encode(Error(s), p) == [45] + s + [13, 10]
    ensures Encode(Integer(n), p) == [58] + PrintInt(n) + [13, 10]
    ensures Encode(Bulk(s), p) == [36] + PrintInt(|s|) + [13, 10] + s + [13, 10]
    ensures Encode(Null, Resp2) == [36, 45, 49, 13, 10] && Encode(Null, Resp3) == [95, 13, 10]
  {
  }

  /** The encodings of a list, one after another. */
  function EncodeEach(fs: seq<Frame>, p: Protocol): (r: Bytes)
  {
    if fs == [] then [] else Encode(fs[0], p) + EncodeEach(fs[1..], p)
  }

  lemma {:induction false} ChildrenBytes(parent: Frame, fs: seq<Frame>, p: Protocol)
    requires forall i :: 0 <= i < |fs| ==> fs[i] < parent
    ensures EncodeChildren(parent, fs, p) == EncodeEach(fs, p)
    decreases |fs|
  {
    hide Encode;
    if fs != [] {
      ChildrenBytes(parent, fs[1..], p);
    }
  }

  /** RESP3 has its own type bytes for Map and Push and counts a Map's pairs; RESP2 sends both as arrays and
      counts the items. */
  lemma NestedBytes(items: seq<Frame>, pairs: seq<(Frame, Frame)>, p: Protocol)
    ensures Encode(Array(items), p) == [42] + PrintInt(|items|) + [13, 10] + EncodeEach(items, p)
    ensures Encode(Push(items), Resp2) == [42] + PrintInt(|items|) + [13, 10] + EncodeEach(items, Resp2)
    ensures Encode(Push(items), Resp3) == [62] + PrintInt(|items|) + [13, 10] + EncodeEach(items, Resp3)
    ensures Encode(Map(pairs), Resp2) == [42] + PrintInt(2 * |pairs|) + [13, 10] + EncodeEach(Interleave(pairs), Resp2)
    ensures Encode(Map(pairs), Resp3) == [37] + PrintInt(|pairs|) + [13, 10] + EncodeEach(Interleave(pairs), Resp3)
  {
    hide EncodeChildren, PrintInt, EncodeEach;
    ChildrenBytes(Array(items), Children(Array(items)), p);
    ChildrenBytes(Push(items), Children(Push(items)), Resp2);
    ChildrenBytes(Push(items), Children(Push(items)), Resp3);
    ChildrenBytes(Map(pairs), Children(Map(pairs)), Resp2);
    ChildrenBytes(Map(pairs), Children(Map(pairs)), Resp3);
  }

  // ----- what the parser does with other bytes -----

  /** An unknown type byte is refused at once, a line that is no number or no text when it is complete, and a
      negative array count gives the empty array. */
  lemma OtherBytes(b: byte, rest: Bytes)
    ensures b !in {43, 45, 58, 36, 42} ==> ParseFrame([b] + rest) == Failed(UnknownType(b))
    ensures ParseFrame([42, 45, 49, 13, 10] + rest) == Parsed(Array([]), 5)
    ensures ParseFrame([42, 48, 13, 10] + rest) == Parsed(Array([]), 4)
  {
    hide ParseLine, ParseI64, Utf8;
    assert PrintInt(-1) == [45, 49] && PrintInt(0) == [48];
    assert [42, 45, 49, 13, 10] + rest == [42] + PrintInt(-1) + CRLF + rest;
    assert [42, 48, 13, 10] + rest == [42] + PrintInt(0) + CRLF + rest;
    NumberOf(42, -1, rest, BadArrayLength);
    NumberOf(42, 0, rest, BadArrayLength);
  }

  /** Two bytes follow a bulk string; the parser does not look at them. */
  lemma AnyTwoBytes(x: byte, a: byte, b: byte, rest: Bytes)
    ensures ParseFrame([36, 49, 13, 10, x, a, b] + rest) == Parsed(Bulk([x]), 7)
  {
    hide ParseLine, ParseI64, Utf8, ParseItems;
    var buf := [36, 49, 13, 10, x, a, b] + rest;
    assert PrintInt(1) == [49];
    assert buf == [36] + PrintInt(1) + CRLF + ([x, a, b] + rest);
    NumberOf(36, 1, [x, a, b] + rest, BadBulkLength);
    assert buf[4..5] == [x];
  }

  lemma BadLine(tag: byte, text: Bytes, rest: Bytes)
    requires !HasCrlf(text)
    ensures tag in {43, 45} && !Utf8(text) ==> ParseFrame([tag] + text + [13, 10] + rest) == Failed(BadUtf8)
    ensures tag == 58 && ParseI64(text).None? ==> ParseFrame([tag] + text + [13, 10] + rest).Failed?
    ensures tag == 36 && ParseI64(text).None? ==> ParseFrame([tag] + text + [13, 10] + rest).Failed?
    ensures tag == 42 && ParseI64(text).None? ==> ParseFrame([tag] + text + [13, 10] + rest).Failed?
  {
    hide ParseLine, ParseI64, Utf8, ParseItems;
    LineOf(tag, text, rest);
  }
}
