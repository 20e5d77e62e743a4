// The codec as it runs: buffers changed in place, and frames split across reads.
module RespStream {
  import opened Bytes
  import opened Frames
  import opened Resp

  /** A growable byte buffer: appended to by the encoder, consumed from the front by the decoder. */
  class BytesMut {
    var data: Bytes

    constructor (initial: Bytes)
      ensures data == initial
    {
      data := initial;
    }

    method PutSlice(s: Bytes)
      modifies this
      ensures data == old(data) + s
    {
      data := data + s;
    }

    method Advance(n: nat)
      requires n <= |data|
      modifies this
      ensures data == old(data)[n..]
    {
      data := data[n..];
    }
  }

  lemma {:induction false} EncodeChildrenSnoc(parent: Frame, fs: seq<Frame>, n: nat, p: Protocol)
    requires n < |fs| && forall i :: 0 <= i < |fs| ==> fs[i] < parent
    ensures EncodeChildren(parent, fs[..n + 1], p) == EncodeChildren(parent, fs[..n], p) + Encode(fs[n], p)
    decreases n
  {
    hide Encode;
    if n == 0 {
      assert fs[..1][1..] == [] == fs[..0];
    } else {
      EncodeChildrenSnoc(parent, fs[1..], n - 1, p);
      assert fs[..n + 1][1..] == fs[1..][..n] && fs[..n][1..] == fs[1..][..n - 1];
    }
  }

  lemma Regroup(a: Bytes, b: Bytes, c: Bytes, d: Bytes, e: Bytes)
    ensures a + b + c + d + e + d == a + (b + c + d + e + d)
  {
  }

  method EncodeLeaf(f: Frame, p: Protocol, dst: BytesMut)
    requires !Nested(f)
    modifies dst
    ensures dst.data == old(dst.data) + Encode(f, p)
  {
    hide PrintInt, EncodeChildren, Header;
    match f {
      case Simple(s) => dst.PutSlice([PLUS]); dst.PutSlice(s); dst.PutSlice(CRLF);
      case Error(s) => dst.PutSlice([MINUS]); dst.PutSlice(s); dst.PutSlice(CRLF);
      case Integer(n) => dst.PutSlice([58]); dst.PutSlice(PrintInt(n)); dst.PutSlice(CRLF);
      case Bulk(b) =>
        dst.PutSlice([36]); dst.PutSlice(PrintInt(|b|)); dst.PutSlice(CRLF);
        dst.PutSlice(b); dst.PutSlice(CRLF);
        Regroup(old(dst.data), [36], PrintInt(|b|), CRLF, b);
      case Null => dst.PutSlice(if p.Resp2? then NULL2 else NULL3);
    }
  }

  /** `RespCodec::encode`: appends, and leaves what was already buffered alone. */
  method EncodeInto(f: Frame, p: Protocol, dst: BytesMut)
    modifies dst
    ensures dst.data == old(dst.data) + Encode(f, p)
    decreases f
  {
    if !Nested(f) {
      EncodeLeaf(f, p, dst);
      return;
    }
    dst.PutSlice(Header(f, p));
    EncodeLoop(f, p, dst);
    assert old(dst.data) + Header(f, p) + EncodeChildren(f, Children(f), p)
        == old(dst.data) + (Header(f, p) + EncodeChildren(f, Children(f), p));
  }

  /** The item loop of a nested frame. */
  method EncodeLoop(f: Frame, p: Protocol, dst: BytesMut)
    modifies dst
    ensures dst.data == old(dst.data) + EncodeChildren(f, Children(f), p)
    decreases f, 0
  {
    hide Encode, Header;
    var fs := Children(f);
    var i := 0;
    assert EncodeChildren(f, fs[..0], p) == [];
    while i < |fs|
      invariant 0 <= i <= |fs|
      invariant dst.data == old(dst.data) + EncodeChildren(f, fs[..i], p)
    {
      EncodeInto(fs[i], p, dst);
      EncodeChildrenSnoc(f, fs, i, p);
      i := i + 1;
    }
    assert fs[..i] == fs;
  }

  /** `items` already read from `used` bytes, then whatever `rest` turns out to be. */
  function Prepend(items: seq<Frame>, used: nat, rest: Parse<seq<Frame>>): (r: Parse<seq<Frame>>)
  {
    match rest
    case Parsed(fs, n) => Parsed(items + fs, used + n)
    case _ => rest
  }

  /** `parse_frame`. */
  method ParseFrameLoop(buf: Bytes) returns (r: Parse<Frame>)
    ensures r == ParseFrame(buf)
    decreases |buf|, 0
  {
    if buf == [] || buf[0] != 42 || !ParseNumber(buf, BadArrayLength).Parsed? {
      return ParseFrame(buf);
    }
    hide ParseItems;
    var Parsed(count, head) := ParseNumber(buf, BadArrayLength);
    var items := ParseItemsLoop(buf[head..], if count < 0 then 0 else count);
    r := AsArray(items, head);
  }

  lemma ItemTaken(buf: Bytes, used: nat, count: nat, items: seq<Frame>)
    requires used <= |buf| && count > 0 && ParseFrame(buf[used..]).Parsed?
    ensures var Parsed(f, n) := ParseFrame(buf[used..]);
            Prepend(items, used, ParseItems(buf[used..], count)) == Prepend(items + [f], used + n, ParseItems(buf[used + n..], count - 1))
  {
    hide ParseFrame;
    var Parsed(f, n) := ParseFrame(buf[used..]);
    assert buf[used..][n..] == buf[used + n..];
    var rest := ParseItems(buf[used + n..], count - 1);
    assert rest.Parsed? ==> items + ([f] + rest.value) == items + [f] + rest.value;
  }

  /** Its item loop: stops at the first item that is not there yet or is malformed. */
  method ParseItemsLoop(buf: Bytes, count: nat) returns (r: Parse<seq<Frame>>)
    ensures r == ParseItems(buf, count)
    decreases |buf|, 1
  {
    hide ParseFrame;
    var used, i, items := 0, 0, [];
    assert ParseItems(buf, count).Parsed? ==> [] + ParseItems(buf, count).value == ParseItems(buf, count).value;
    while i < count
      invariant 0 <= i <= count && used <= |buf|
      invariant ParseItems(buf, count) == Prepend(items, used, ParseItems(buf[used..], count - i))
    {
      var item := ParseFrameLoop(buf[used..]);
      match item {
        case Parsed(f, n) =>
          ItemTaken(buf, used, count - i, items);
          items, used := items + [f], used + n;
        case Incomplete => return Incomplete;
        case Failed(e) => return Failed(e);
        case Panicked => return Panicked;
      }
      i := i + 1;
    }
    assert items + [] == items;
    r := Parsed(items, used);
  }

  datatype Stop = Waiting | Broken(error: ParseError) | Crashed

  /** `RespCodec::decode`: takes one frame off the front, or leaves the buffer as it is. */
  method Decode(src: BytesMut) returns (r: Parse<Frame>)
    modifies src
    ensures r == ParseFrame(old(src.data))
    ensures src.data == if r.Parsed? then old(src.data)[r.used..] else old(src.data)
  {
    r := ParseFrameLoop(src.data);
    if r.Parsed? {
      src.Advance(r.used);
    }
  }

  // ----- split reads -----

  /** Everything a stretch of bytes decodes to: the frames, what is left, and why it stopped. */
  datatype Drained = Drained(frames: seq<Frame>, rest: Bytes, stop: Stop)

  function DecodeAll(buf: Bytes): (d: Drained)
    ensures |d.rest| <= |buf|
    decreases |buf|
  {
    match ParseFrame(buf)
    case Incomplete => Drained([], buf, Waiting)
    case Failed(e) => Drained([], buf, Broken(e))
    case Panicked => Drained([], buf, Crashed)
    case Parsed(f, n) =>
      var d := DecodeAll(buf[n..]);
      d.(frames := [f] + d.frames)
  }

  /** One read: the new bytes join what was left over; a broken connection reads no more. */
  function Receive(d: Drained, chunk: Bytes): (r: Drained)
  {
    if d.stop.Waiting? then
      var e := DecodeAll(d.rest + chunk);
      e.(frames := d.frames + e.frames)
    else d
  }

  function ReceiveAll(chunks: seq<Bytes>): (r: Drained)
  {
    if chunks == [] then Drained([], [], Waiting)
    else Receive(ReceiveAll(chunks[..|chunks| - 1]), chunks[|chunks| - 1])
  }

  function Concat(chunks: seq<Bytes>): (r: Bytes)
  {
    if chunks == [] then [] else Concat(chunks[..|chunks| - 1]) + chunks[|chunks| - 1]
  }

  /** The read loop of a connection: decode until the buffer holds no whole frame. */
  method DrainBuffer(src: BytesMut) returns (frames: seq<Frame>, stop: Stop)
    modifies src
    ensures Drained(frames, src.data, stop) == DecodeAll(old(src.data))
  {
    frames := [];
    while true
      invariant var d := DecodeAll(src.data);
                DecodeAll(old(src.data)) == d.(frames := frames + d.frames)
      decreases |src.data|
    {
      hide ParseFrame;
      var r := Decode(src);
      match r {
        case Parsed(f, _) =>
          assert frames + ([f] + DecodeAll(src.data).frames) == (frames + [f]) + DecodeAll(src.data).frames;
          frames := frames + [f];
        case Incomplete => return frames, Waiting;
        case Failed(e) => return frames, Broken(e);
        case Panicked => return frames, Crashed;
      }
    }
  }

  predicate SameOutcome(a: Drained, b: Drained)
  {
    a.frames == b.frames && a.stop == b.stop && (a.stop.Waiting? ==> a.rest == b.rest)
  }

  lemma {:induction false} DecodeAppend(a: Bytes, b: Bytes)
    ensures SameOutcome(DecodeAll(a + b), Receive(DecodeAll(a), b))
    decreases |a|
  {
    hide ParseFrame;
    if !ParseFrame(a).Incomplete? {
      FrameStable(a, b);
      if ParseFrame(a).Parsed? {
        var n := ParseFrame(a).used;
        DropOfAppend(a, b, n);
        DecodeAppend(a[n..], b);
      }
    }
  }

  /** However a byte stream is cut into reads, the connection sees the frames, and the error if
      there is one, that decoding the whole stream at once gives. */
  lemma {:induction false} SplitReads(chunks: seq<Bytes>)
    ensures SameOutcome(ReceiveAll(chunks), DecodeAll(Concat(chunks)))
  {
    hide ParseFrame;
    if chunks == [] {
      assert ParseFrame([]).Incomplete? by { NothingParsed(); }
    } else {
      var front, last := chunks[..|chunks| - 1], chunks[|chunks| - 1];
      SplitReads(front);
      DecodeAppend(Concat(front), last);
    }
  }

  /** Any two ways of cutting the same bytes are indistinguishable. */
  lemma ChunkingIrrelevant(one: seq<Bytes>, other: seq<Bytes>)
    requires Concat(one) == Concat(other)
    ensures SameOutcome(ReceiveAll(one), ReceiveAll(other))
  {
    SplitReads(one);
    SplitReads(other);
  }
}
