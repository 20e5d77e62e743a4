// The envelope, and the codec as it runs on a buffer. crates/protocol/src/rmp.rs:36-177, 179-290.
module RmpStream {
  import opened Bytes
  import opened Frames
  import opened Rmp
  import opened RespStream

  const MAGIC: Bytes := [0x52, 0x4D]
  const VERSION: byte := 1
  const HEADER_LEN: nat := 16

  datatype MsgType = Request | Response
  datatype RmpMessage = RmpMessage(requestId: nat, msgType: MsgType, frame: Frame)

  /** `Wait`: not enough bytes yet. */
  datatype Polled = Wait | Refused(problem: Problem) | Received(msg: RmpMessage, used: nat)

  function TypeByte(t: MsgType): (b: byte) { if t.Request? then 0 else 1 }

  function HeaderBytes(m: RmpMessage, payload: nat): (r: Bytes)
    ensures |r| == HEADER_LEN
  {
    MAGIC + [VERSION, TypeByte(m.msgType)] + BigEndian(m.requestId, 8) + U32Bytes(payload)
  }

  /** The encoder refuses a Push anywhere and a payload over the cap. */
  predicate Encodable(m: RmpMessage)
  {
    NoPush(m.frame) && |RmpBytes(m.frame)| <= MAX_RMP_FRAME_LEN
  }

  function MessageBytes(m: RmpMessage): (r: Bytes)
  {
    HeaderBytes(m, |RmpBytes(m.frame)|) + RmpBytes(m.frame)
  }

  /** `RmpCodec::decode`, on all the bytes buffered so far. */
  function DecodeMessage(buf: Bytes): (r: Polled)
    ensures r.Received? ==> HEADER_LEN <= r.used <= |buf|
  {
    if |buf| < HEADER_LEN then Wait
    else if buf[..2] != MAGIC then Refused(BadMagic)
    else if buf[2] != VERSION then Refused(BadVersion)
    else if buf[3] > 1 then Refused(BadType)
    else
      var len := Number(buf[12..16]);
      if len > MAX_RMP_FRAME_LEN then Refused(TooLong)
      else if |buf| < HEADER_LEN + len then Wait
      else match DecodeFrame(buf[16..16 + len], 0)
        case Bad(e) => Refused(e)
        case Got(f, _) =>
          Received(RmpMessage(Number(buf[4..12]), if buf[3] == 0 then Request else Response, f), HEADER_LEN + len)
  }

  // ----- promises -----

  lemma HeaderFields(m: RmpMessage, n: nat, rest: Bytes)
    requires m.requestId < U64 && n <= MAX_RMP_FRAME_LEN
    ensures var buf := HeaderBytes(m, n) + rest;
            && buf[..2] == MAGIC && buf[2] == VERSION && buf[3] == TypeByte(m.msgType)
            && Number(buf[4..12]) == m.requestId && Number(buf[12..16]) == n && buf[16..] == rest
  {
    var buf, id, len := HeaderBytes(m, n) + rest, BigEndian(m.requestId, 8), U32Bytes(n);
    assert buf[4..12] == id && buf[12..16] == len;
    LenRoundTrip(n, []);
    assert len + [] == len && len[..4] == len;
    assert Pow256(4) == U32 && Pow256(6) == U32 * 65536 && Pow256(8) == U64;
    NumberOfBigEndian(m.requestId, 8);
  }

  /** Every message the encoder accepts comes back as it was, with exactly its bytes taken, whatever is
      buffered behind it, if it is at most 32 levels deep, and is refused if it is deeper; and no proper
      prefix of it is ever taken for anything but an unfinished message. */
  lemma MessageRoundTrip(m: RmpMessage, rest: Bytes)
    requires Typed(m.frame) && m.requestId < U64 && Encodable(m)
    ensures Height(m.frame) <= MAX_RMP_NESTING_DEPTH ==>
      DecodeMessage(MessageBytes(m) + rest) == Received(m, |MessageBytes(m)|)
    ensures Height(m.frame) > MAX_RMP_NESTING_DEPTH ==> DecodeMessage(MessageBytes(m) + rest) == Refused(TooDeep)
    ensures forall n :: 0 <= n < |MessageBytes(m)| ==> DecodeMessage(MessageBytes(m)[..n]) == Wait
  {
    hide RmpBytes, DecodeFrame, Typed, NoPush, Height, HeaderBytes, Number;
    var payload := RmpBytes(m.frame);
    var len := |payload|;
    var head := HeaderBytes(m, len);
    var buf := MessageBytes(m) + rest;
    assert buf == head + (payload + rest);
    HeaderFields(m, len, payload + rest);
    assert buf[16..16 + len] == (payload + rest)[..len] == payload;
    FrameRoundTrip(m.frame, [], 0);
    assert payload + [] == payload;
    forall n | 0 <= n < |MessageBytes(m)| ensures DecodeMessage(MessageBytes(m)[..n]) == Wait {
      PrefixWaits(m, n);
    }
  }

  lemma PrefixWaits(m: RmpMessage, n: nat)
    requires m.requestId < U64 && |RmpBytes(m.frame)| <= MAX_RMP_FRAME_LEN && n < |MessageBytes(m)|
    ensures DecodeMessage(MessageBytes(m)[..n]) == Wait
  {
    hide RmpBytes, DecodeFrame, HeaderBytes, Number;
    var payload, cut := RmpBytes(m.frame), MessageBytes(m)[..n];
    if n >= HEADER_LEN {
      assert cut == HeaderBytes(m, |payload|) + payload[..n - HEADER_LEN];
      HeaderFields(m, |payload|, payload[..n - HEADER_LEN]);
    }
  }

  /** What has been decided stays decided when more bytes arrive. */
  lemma MessageStable(buf: Bytes, more: Bytes)
    requires !DecodeMessage(buf).Wait?
    ensures DecodeMessage(buf + more) == DecodeMessage(buf)
  {
    hide DecodeFrame, Number;
    var whole := buf + more;
    assert whole[..2] == buf[..2] && whole[4..12] == buf[4..12] && whole[12..16] == buf[12..16];
    var len := Number(buf[12..16]);
    if |buf| >= HEADER_LEN + len {
      assert whole[16..16 + len] == buf[16..16 + len];
    }
  }

  /** No inner length is ever cut to 32 bits: the one cap on the payload covers them all. */
  lemma {:induction false} LengthsFit(f: Frame)
    requires |RmpBytes(f)| <= MAX_RMP_FRAME_LEN
    ensures f.Simple? || f.Error? ==> |f.text| <= MAX_RMP_FRAME_LEN
    ensures f.Bulk? ==> |f.data| <= MAX_RMP_FRAME_LEN
    ensures Nested(f) ==> CountOf(f) <= MAX_RMP_FRAME_LEN
    ensures forall i :: 0 <= i < |Children(f)| ==> |RmpBytes(Children(f)[i])| <= MAX_RMP_FRAME_LEN
  {
    if Nested(f) {
      forall i | 0 <= i < |Children(f)| ensures |RmpBytes(Children(f)[i])| <= MAX_RMP_FRAME_LEN {
        ItemFits(f, Children(f), i);
      }
    }
  }

  lemma {:induction false} ItemFits(parent: Frame, fs: seq<Frame>, i: nat)
    requires (forall i :: 0 <= i < |fs| ==> fs[i] < parent) && i < |fs|
    ensures |RmpBytes(fs[i])| <= |RmpItems(parent, fs)|
    decreases |fs|
  {
    hide RmpBytes;
    if i > 0 {
      ItemFits(parent, fs[1..], i - 1);
    }
  }

  // ----- encode_frame -----

  lemma {:induction false} RmpItemsSnoc(parent: Frame, fs: seq<Frame>, n: nat)
    requires n < |fs| && forall i :: 0 <= i < |fs| ==> fs[i] < parent
    ensures RmpItems(parent, fs[..n + 1]) == RmpItems(parent, fs[..n]) + RmpBytes(fs[n])
    decreases n
  {
    hide RmpBytes;
    if n == 0 {
      assert fs[..1][1..] == [] == fs[..0];
    } else {
      RmpItemsSnoc(parent, fs[1..], n - 1);
      assert fs[..n + 1][1..] == fs[1..][..n] && fs[..n][1..] == fs[1..][..n - 1];
    }
  }

  lemma NoItems(parent: Frame, fs: seq<Frame>)
    requires fs == []
    ensures RmpItems(parent, fs) == []
  {
  }

  lemma ThreeParts(a: Bytes, b: Bytes, c: Bytes, d: Bytes)
    ensures a + b + c + d == a + (b + c + d)
  {
  }

  method EncodeFrame(f: Frame, dst: BytesMut) returns (ok: bool)
    modifies dst
    ensures ok <==> NoPush(f)
    ensures ok ==> dst.data == old(dst.data) + RmpBytes(f)
    decreases f
  {
    hide U32Bytes, I64Bytes, Tag, RmpItems;
    match f {
      case Null => dst.PutSlice([Tag(f)]);
      case Integer(n) => dst.PutSlice([Tag(f)]); dst.PutSlice(I64Bytes(n));
      case Simple(s) => PutSized(f, s, dst);
      case Error(s) => PutSized(f, s, dst);
      case Bulk(s) => PutSized(f, s, dst);
      case Push(_) => return false;
      case _ =>
        dst.PutSlice([Tag(f)]);
        dst.PutSlice(U32Bytes(CountOf(f)));
        ok := EncodeItemsLoop(f, dst);
        ThreeParts(old(dst.data), [Tag(f)], U32Bytes(CountOf(f)), RmpItems(f, Children(f)));
        return;
    }
    ok := true;
  }

  method PutSized(f: Frame, s: Bytes, dst: BytesMut)
    modifies dst
    ensures dst.data == old(dst.data) + ([Tag(f)] + U32Bytes(|s|) + s)
  {
    dst.PutSlice([Tag(f)]);
    dst.PutSlice(U32Bytes(|s|));
    dst.PutSlice(s);
  }

  method EncodeItemsLoop(f: Frame, dst: BytesMut) returns (ok: bool)
    requires Nested(f)
    modifies dst
    ensures ok <==> forall i :: 0 <= i < |Children(f)| ==> NoPush(Children(f)[i])
    ensures ok ==> dst.data == old(dst.data) + RmpItems(f, Children(f))
    decreases f, 0
  {
    hide RmpBytes, RmpItems, NoPush, Children;
    var fs := Children(f);
    var i := 0;
    NoItems(f, fs[..0]);
    while i < |fs|
      invariant 0 <= i <= |fs| && dst.data == old(dst.data) + RmpItems(f, fs[..i])
      invariant forall j :: 0 <= j < i ==> NoPush(fs[j])
    {
      ok := EncodeFrame(fs[i], dst);
      if !ok {
        return false;
      }
      RmpItemsSnoc(f, fs, i);
      i := i + 1;
    }
    assert fs[..i] == fs;
    ok := true;
  }

  /** `RmpCodec::encode`. */
  method EncodeMessage(m: RmpMessage, dst: BytesMut) returns (ok: bool)
    modifies dst
    ensures ok <==> Encodable(m)
    ensures dst.data == old(dst.data) + if ok then MessageBytes(m) else []
  {
    hide RmpBytes, NoPush;
    var payload := new BytesMut([]);
    ok := EncodeFrame(m.frame, payload);
    assert ok ==> payload.data == RmpBytes(m.frame);
    if !ok || |payload.data| > MAX_RMP_FRAME_LEN {
      return false;
    }
    dst.PutSlice(MAGIC);
    dst.PutSlice([VERSION]);
    dst.PutSlice([TypeByte(m.msgType)]);
    dst.PutSlice(BigEndian(m.requestId, 8));
    dst.PutSlice(U32Bytes(|payload.data|));
    dst.PutSlice(payload.data);
    assert dst.data == old(dst.data) + MessageBytes(m);
  }

  // ----- decode_frame_inner -----

  /** `take_u8` after the depth check, then the value behind the tag. */
  method DecodeFrameInner(src: BytesMut, depth: nat) returns (r: Decoded<Frame>)
    modifies src
    ensures r == DecodeFrame(old(src.data), depth)
    ensures r.Got? ==> src.data == old(src.data)[r.used..]
    decreases |src.data|, 0
  {
    hide DecodeItems, TakeLen, DecodeLeaf;
    if depth > MAX_RMP_NESTING_DEPTH {
      return Bad(TooDeep);
    }
    if src.data == [] {
      return Bad(Truncated);
    }
    var tag := src.data[0];
    src.Advance(1);
    if tag == 5 || tag == 6 {
      var len := TakeLen(src.data);
      if len.Bad? {
        return Bad(len.problem);
      }
      src.Advance(4);
      assert src.data == old(src.data)[5..];
      var items := DecodeItemsLoop(src, if tag == 6 then 2 * len.value else len.value, depth + 1);
      match items
      case Bad(e) => return Bad(e);
      case Got(fs, used) =>
        return Got(if tag == 6 then Map(PairUp(fs)) else Array(fs), 5 + used);
    }
    var leaf := DecodeLeaf(tag, src.data);
    if leaf.Bad? {
      return Bad(leaf.problem);
    }
    src.Advance(leaf.used);
    r := Got(leaf.value, 1 + leaf.used);
  }

  method DecodeItemsLoop(src: BytesMut, count: nat, depth: nat) returns (r: Decoded<seq<Frame>>)
    modifies src
    ensures r == DecodeItems(old(src.data), count, depth)
    ensures r.Got? ==> src.data == old(src.data)[r.used..]
    decreases |src.data|, 1
  {
    hide DecodeFrame;
    var items: seq<Frame> := [];
    var used := 0;
    FollowingNothing(DecodeItems(src.data, count, depth));
    while |items| < count
      invariant |items| <= count && used <= |old(src.data)| && src.data == old(src.data)[used..]
      invariant DecodeItems(old(src.data), count, depth) ==
        Following(items, used, DecodeItems(src.data, count - |items|, depth))
      decreases count - |items|
    {
      ghost var before := src.data;
      var f := DecodeFrameInner(src, depth);
      match f
      case Bad(e) => return Bad(e);
      case Got(x, n) =>
        assert before[n..] == old(src.data)[used + n..];
        FollowingStep(items, used, x, n, DecodeItems(before[n..], count - |items| - 1, depth));
        items, used := items + [x], used + n;
    }
    assert items + [] == items;
    r := Got(items, used);
  }

  /** `items` already decoded from `used` bytes, then the rest. */
  function Following(items: seq<Frame>, used: nat, rest: Decoded<seq<Frame>>): (r: Decoded<seq<Frame>>)
  {
    match rest
    case Bad(e) => Bad(e)
    case Got(fs, n) => Got(items + fs, used + n)
  }

  lemma FollowingNothing(rest: Decoded<seq<Frame>>)
    ensures Following([], 0, rest) == rest
  {
    assert rest.Got? ==> [] + rest.value == rest.value;
  }

  lemma FollowingStep(items: seq<Frame>, used: nat, x: Frame, n: nat, rest: Decoded<seq<Frame>>)
    ensures Following(items, used, Following([x], n, rest)) == Following(items + [x], used + n, rest)
  {
    if rest.Got? {
      assert items + ([x] + rest.value) == (items + [x]) + rest.value;
    }
  }

  /** `RmpCodec::decode`: a message is taken off the front only when it is whole. */
  method Decode(src: BytesMut) returns (r: Polled)
    modifies src
    ensures r == DecodeMessage(old(src.data))
    ensures r.Wait? ==> src.data == old(src.data)
    ensures r.Received? ==> src.data == old(src.data)[r.used..]
  {
    hide DecodeFrame, Number;
    if |src.data| < HEADER_LEN {
      return Wait;
    }
    if src.data[..2] != MAGIC {
      return Refused(BadMagic);
    }
    if src.data[2] != VERSION {
      return Refused(BadVersion);
    }
    if src.data[3] > 1 {
      return Refused(BadType);
    }
    var msgType := if src.data[3] == 0 then Request else Response;
    var requestId, len := Number(src.data[4..12]), Number(src.data[12..16]);
    if len > MAX_RMP_FRAME_LEN {
      return Refused(TooLong);
    }
    if |src.data| < HEADER_LEN + len {
      return Wait;
    }
    var payload := new BytesMut(src.data[16..16 + len]);
    src.Advance(HEADER_LEN);
    src.Advance(len);
    var frame := DecodeFrameInner(payload, 0);
    match frame
    case Bad(e) => r := Refused(e);
    case Got(f, _) => r := Received(RmpMessage(requestId, msgType, f), HEADER_LEN + len);
  }

  // ----- a message that goes out and is refused -----

  /** Nothing, inside `n` arrays of one. */
  function Boxed(n: nat): (f: Frame)
  {
    if n == 0 then Null else Array([Boxed(n - 1)])
  }

  lemma {:induction false} BoxedIs(n: nat)
    requires n <= 1000
    ensures Typed(Boxed(n)) && NoPush(Boxed(n)) && Height(Boxed(n)) == n && |RmpBytes(Boxed(n))| == 5 * n + 1
  {
    if n > 0 {
      var inner, f := Boxed(n - 1), Boxed(n);
      BoxedIs(n - 1);
      assert Children(f) == [inner] && [inner][1..] == [];
      assert HeightAll(f, [inner]) == Height(inner);
      assert RmpItems(f, [inner]) == RmpBytes(inner) + [];
    }
  }

  /** Thirty-two levels: both do. */
  lemma ThirtyTwoAccepted(id: nat, msgType: MsgType, rest: Bytes)
    requires id < U64
    ensures var m := RmpMessage(id, msgType, Boxed(32));
            Typed(m.frame) && Encodable(m) && DecodeMessage(MessageBytes(m) + rest) == Received(m, 16 + 161)
  {
    hide RmpBytes, DecodeMessage, Typed, NoPush, Height, Boxed, HeaderBytes;
    BoxedIs(32);
    MessageRoundTrip(RmpMessage(id, msgType, Boxed(32)), rest);
  }

  /** Thirty-three levels: the encoder takes it, the decoder does not. */
  lemma ThirtyThreeRefused(id: nat, msgType: MsgType, rest: Bytes)
    requires id < U64
    ensures var m := RmpMessage(id, msgType, Boxed(33));
            Typed(m.frame) && Encodable(m) && DecodeMessage(MessageBytes(m) + rest) == Refused(TooDeep)
  {
    hide RmpBytes, DecodeMessage, MessageBytes, Typed, NoPush, Height, Boxed;
    BoxedIs(33);
    MessageRoundTrip(RmpMessage(id, msgType, Boxed(33)), rest);
  }

  // ----- the bytes themselves -----

  lemma Word(n: nat)
    requires n < 65536
    ensures U32Bytes(n) == [0, 0, n / 256, n % 256]
  {
    assert BigEndian(n, 4) == BigEndian(n / 256, 3) + [n % 256];
    assert BigEndian(n / 256, 3) == BigEndian(n / 256 / 256, 2) + [n / 256 % 256];
    assert n / 256 / 256 == 0 && BigEndian(0, 2) == BigEndian(0, 1) + [0] && BigEndian(0, 1) == BigEndian(0, 0) + [0];
  }

  /** One byte of text as a request numbered 258. */
  lemma OneMessage()
    ensures MessageBytes(RmpMessage(258, Request, Bulk([120]))) ==
      [0x52, 0x4D, 1, 0, 0, 0, 0, 0, 0, 0, 1, 2, 0, 0, 0, 6, 4, 0, 0, 0, 1, 120]
  {
    hide U32Bytes;
    Word(1);
    Word(6);
    assert RmpBytes(Bulk([120])) == [4, 0, 0, 0, 1, 120];
    RequestNumber();
  }

  lemma RequestNumber()
    ensures BigEndian(258, 8) == [0, 0, 0, 0, 0, 0, 1, 2]
  {
    assert BigEndian(0, 2) == BigEndian(0, 1) + [0] && BigEndian(0, 1) == BigEndian(0, 0) + [0];
    assert BigEndian(0, 4) == BigEndian(0, 3) + [0] && BigEndian(0, 3) == BigEndian(0, 2) + [0];
    assert BigEndian(0, 6) == BigEndian(0, 5) + [0] && BigEndian(0, 5) == BigEndian(0, 4) + [0];
    assert BigEndian(258, 8) == BigEndian(1, 7) + [2] && BigEndian(1, 7) == BigEndian(0, 6) + [1];
  }

  /** The type byte of each value. */
  lemma ValueBytes(s: Bytes, n: int)
    ensures RmpBytes(Null) == [0] && RmpBytes(Simple(s)) == [1] + U32Bytes(|s|) + s && RmpBytes(Error(s)) == [2] + U32Bytes(|s|) + s
    ensures RmpBytes(Integer(n)) == [3] + I64Bytes(n) && RmpBytes(Bulk(s)) == [4] + U32Bytes(|s|) + s
    ensures RmpBytes(Array([])) == [5, 0, 0, 0, 0] && RmpBytes(Map([])) == [6, 0, 0, 0, 0]
  {
    Word(0);
  }

  /** What a header is refused for, in this order; and the largest payload that is not too long is 64 MiB. */
  lemma HeaderRefused(buf: Bytes)
    requires |buf| >= 16
    ensures !(buf[0] == 0x52 && buf[1] == 0x4D) ==> DecodeMessage(buf) == Refused(BadMagic)
    ensures buf[0] == 0x52 && buf[1] == 0x4D && buf[2] != 1 ==> DecodeMessage(buf) == Refused(BadVersion)
    ensures buf[0] == 0x52 && buf[1] == 0x4D && buf[2] == 1 && buf[3] > 1 ==> DecodeMessage(buf) == Refused(BadType)
    ensures buf[0] == 0x52 && buf[1] == 0x4D && buf[2] == 1 && buf[3] <= 1 && Number(buf[12..16]) > 67_108_864 ==>
      DecodeMessage(buf) == Refused(TooLong)
    ensures buf[..3] == [0x52, 0x4D, 1] && buf[3] <= 1 && |buf| < 16 + Number(buf[12..16]) <= 67_108_880 ==> DecodeMessage(buf) == Wait
  {
    hide DecodeFrame, Number;
    assert buf[..2] == [buf[0], buf[1]];
    assert buf[..2] == MAGIC <==> buf[0] == 0x52 && buf[1] == 0x4D;
  }
}
