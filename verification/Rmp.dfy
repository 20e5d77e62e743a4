// The binary protocol: tagged values and a length-prefixed envelope. crates/protocol/src/rmp.rs.
module Rmp {
  import opened Bytes
  import opened Frames

  const MAX_RMP_FRAME_LEN: nat := 64 * 1024 * 1024
  const MAX_RMP_NESTING_DEPTH: nat := 32
  const U32: nat := 0x1_0000_0000
  const U64: nat := 0x1_0000_0000_0000_0000
  const I63: nat := 0x8000_0000_0000_0000

  // ----- encoding -----

  /** `len as u32`, four bytes: longer lengths lose their upper bits. */
  function U32Bytes(n: nat): (s: Bytes)
    ensures |s| == 4
  {
    BigEndian(n % U32, 4)
  }

  function I64Bytes(n: int): (s: Bytes)
    ensures |s| == 8
  {
    BigEndian(n % U64, 8)
  }

  function Tag(f: Frame): (t: byte)
  {
    match f
    case Null => 0 case Simple(_) => 1 case Error(_) => 2 case Integer(_) => 3
    case Bulk(_) => 4 case Array(_) => 5 case Map(_) => 6 case Push(_) => 7
  }

  /** Map counts pairs, the others items. */
  function CountOf(f: Frame): (n: nat)
    requires Nested(f)
  {
    if f.Map? then |f.pairs| else |Children(f)|
  }

  /** The bytes of a frame without a Push in it; there is no tag for Push. */
  function RmpBytes(f: Frame): (r: Bytes)
    ensures r != []
    decreases f
  {
    match f
    case Null => [Tag(f)]
    case Integer(n) => [Tag(f)] + I64Bytes(n)
    case Simple(s) => [Tag(f)] + U32Bytes(|s|) + s
    case Error(s) => [Tag(f)] + U32Bytes(|s|) + s
    case Bulk(b) => [Tag(f)] + U32Bytes(|b|) + b
    case _ => [Tag(f)] + U32Bytes(CountOf(f)) + RmpItems(f, Children(f))
  }

  function RmpItems(parent: Frame, fs: seq<Frame>): (r: Bytes)
    requires forall i :: 0 <= i < |fs| ==> fs[i] < parent
    ensures |r| >= |fs|
    decreases parent, |fs|
  {
    if fs == [] then [] else RmpBytes(fs[0]) + RmpItems(parent, fs[1..])
  }

  predicate NoPush(f: Frame)
    decreases f
  {
    !f.Push? && forall i :: 0 <= i < |Children(f)| ==> NoPush(Children(f)[i])
  }

  // ----- decoding -----

  datatype Problem = TooDeep | Truncated | TooLong | NotUtf8 | UnknownTag | BadMagic | BadVersion | BadType
  datatype Decoded<+T> = Got(value: T, used: nat) | Bad(problem: Problem)

  /** `take_len`. */
  function TakeLen(buf: Bytes): (r: Decoded<nat>)
    ensures r.Got? ==> r.used == 4 <= |buf| && r.value <= MAX_RMP_FRAME_LEN
  {
    if |buf| < 4 then Bad(Truncated)
    else if Number(buf[..4]) > MAX_RMP_FRAME_LEN then Bad(TooLong)
    else Got(Number(buf[..4]), 4)
  }

  /** A length and that many bytes. */
  function TakeSized(buf: Bytes): (r: Decoded<Bytes>)
    ensures r.Got? ==> 4 <= r.used <= |buf| && r.value == buf[4..r.used]
  {
    match TakeLen(buf)
    case Bad(e) => Bad(e)
    case Got(n, _) => if |buf| < 4 + n then Bad(Truncated) else Got(buf[4..4 + n], 4 + n)
  }

  function Signed(w: nat): (n: int) { if w >= I63 then w - U64 else w }

  function PairUp(fs: seq<Frame>): (r: seq<(Frame, Frame)>)
    ensures |r| == |fs| / 2
  {
    if |fs| < 2 then [] else [(fs[0], fs[1])] + PairUp(fs[2..])
  }

  function Leaf(tag: byte, s: Bytes): (f: Frame)
  {
    if tag == 1 then Simple(s) else if tag == 2 then Error(s) else Bulk(s)
  }

  /** A value whose tag has been taken off and that is no array or map. */
  function DecodeLeaf(tag: byte, buf: Bytes): (r: Decoded<Frame>)
    ensures r.Got? ==> r.used <= |buf|
  {
    if tag == 0 then Got(Null, 0)
    else if tag == 3 then (if |buf| < 8 then Bad(Truncated) else Got(Integer(Signed(Number(buf[..8]))), 8))
    else if tag == 1 || tag == 2 || tag == 4 then
      match TakeSized(buf) {
        case Bad(e) => Bad(e)
        case Got(s, used) => if tag != 4 && !Utf8(s) then Bad(NotUtf8) else Got(Leaf(tag, s), used)
      }
    else Bad(UnknownTag)
  }

  /** `decode_frame_inner`, with the bytes left as its measure. */
  function DecodeFrame(buf: Bytes, depth: nat): (r: Decoded<Frame>)
    ensures r.Got? ==> 0 < r.used <= |buf|
    decreases |buf|, 0
  {
    if depth > MAX_RMP_NESTING_DEPTH then Bad(TooDeep)
    else if buf == [] then Bad(Truncated)
    else
      var tag := buf[0];
      if tag == 5 || tag == 6 then
        match TakeLen(buf[1..]) {
          case Bad(e) => Bad(e)
          case Got(count, _) =>
            (match DecodeItems(buf[5..], if tag == 6 then 2 * count else count, depth + 1)
             case Bad(e) => Bad(e)
             case Got(fs, used) => Got(if tag == 6 then Map(PairUp(fs)) else Array(fs), 5 + used))
        }
      else
        match DecodeLeaf(tag, buf[1..])
        case Bad(e) => Bad(e)
        case Got(f, used) => Got(f, 1 + used)
  }

  function DecodeItems(buf: Bytes, count: nat, depth: nat): (r: Decoded<seq<Frame>>)
    ensures r.Got? ==> r.used <= |buf| && |r.value| == count <= r.used
    decreases |buf|, 1
  {
    if count == 0 then Got([], 0)
    else
      match DecodeFrame(buf, depth)
      case Bad(e) => Bad(e)
      case Got(f, used) =>
        (match DecodeItems(buf[used..], count - 1, depth)
         case Bad(e) => Bad(e)
         case Got(fs, more) => Got([f] + fs, used + more))
  }

  // ----- decoding undoes encoding -----

  /** How far below a frame its deepest frame lies. */
  function Height(f: Frame): (n: nat)
    decreases f
  {
    if Children(f) == [] then 0 else 1 + HeightAll(f, Children(f))
  }

  function HeightAll(parent: Frame, fs: seq<Frame>): (n: nat)
    requires forall i :: 0 <= i < |fs| ==> fs[i] < parent
    decreases parent, |fs|
  {
    if fs == [] then 0
    else if Height(fs[0]) >= HeightAll(parent, fs[1..]) then Height(fs[0]) else HeightAll(parent, fs[1..])
  }

  lemma {:induction false} PairUpInterleave(pairs: seq<(Frame, Frame)>)
    ensures PairUp(Interleave(pairs)) == pairs
  {
    if pairs != [] {
      PairUpInterleave(pairs[1..]);
      assert Interleave(pairs)[2..] == Interleave(pairs[1..]);
    }
  }

  lemma {:induction false} InterleavePairUp(fs: seq<Frame>)
    requires |fs| % 2 == 0
    ensures Interleave(PairUp(fs)) == fs
  {
    if fs != [] {
      InterleavePairUp(fs[2..]);
      assert PairUp(fs)[1..] == PairUp(fs[2..]);
      assert fs == [fs[0], fs[1]] + fs[2..];
    }
  }

  lemma LenRoundTrip(n: nat, rest: Bytes)
    requires n <= MAX_RMP_FRAME_LEN
    ensures TakeLen(U32Bytes(n) + rest) == Got(n, 4)
  {
    hide BigEndian, Number;
    assert (U32Bytes(n) + rest)[..4] == U32Bytes(n);
    PowersOfWord();
    NumberOfBigEndian(n, 4);
  }

  lemma PowersOfWord()
    ensures Pow256(4) == U32 && Pow256(8) == U64
  {
    assert Pow256(2) == 65536;
    assert Pow256(4) == U32;
    assert Pow256(6) == U32 * 65536;
  }

  lemma IntegerRoundTrip(n: int, rest: Bytes)
    requires I64_MIN <= n <= I64_MAX
    ensures Signed(Number((I64Bytes(n) + rest)[..8])) == n
  {
    hide BigEndian, Number;
    assert (I64Bytes(n) + rest)[..8] == I64Bytes(n);
    PowersOfWord();
    NumberOfBigEndian(n % U64, 8);
  }

  lemma SizedRoundTrip(s: Bytes, rest: Bytes)
    requires |s| <= MAX_RMP_FRAME_LEN
    ensures TakeSized(U32Bytes(|s|) + s + rest) == Got(s, 4 + |s|)
  {
    var buf := U32Bytes(|s|) + s + rest;
    assert buf == U32Bytes(|s|) + (s + rest);
    LenRoundTrip(|s|, s + rest);
    assert buf[4..4 + |s|] == s;
  }

  lemma LeafRoundTrip(f: Frame, rest: Bytes, d: nat)
    requires Typed(f) && !Nested(f) && |RmpBytes(f)| <= MAX_RMP_FRAME_LEN && d <= MAX_RMP_NESTING_DEPTH
    ensures DecodeFrame(RmpBytes(f) + rest, d) == Got(f, |RmpBytes(f)|)
  {
    hide Utf8, U32Bytes, I64Bytes, TakeSized, Signed, Number;
    var buf := RmpBytes(f) + rest;
    match f
    case Null =>
    case Integer(n) =>
      assert buf[1..] == I64Bytes(n) + rest;
      IntegerRoundTrip(n, rest);
    case Simple(s) => assert buf[1..] == U32Bytes(|s|) + s + rest; SizedRoundTrip(s, rest);
    case Error(s) => assert buf[1..] == U32Bytes(|s|) + s + rest; SizedRoundTrip(s, rest);
    case Bulk(s) => assert buf[1..] == U32Bytes(|s|) + s + rest; SizedRoundTrip(s, rest);
  }

  /** An array or map is its header and then its items. */
  lemma NestedDecode(f: Frame, rest: Bytes, d: nat)
    requires Nested(f) && !f.Push? && |RmpBytes(f)| <= MAX_RMP_FRAME_LEN && d <= MAX_RMP_NESTING_DEPTH
    ensures var items := DecodeItems(RmpItems(f, Children(f)) + rest, |Children(f)|, d + 1);
            && (items.Bad? ==> DecodeFrame(RmpBytes(f) + rest, d) == Bad(items.problem))
            && (items == Got(Children(f), |RmpItems(f, Children(f))|) ==>
                  DecodeFrame(RmpBytes(f) + rest, d) == Got(f, |RmpBytes(f)|))
  {
    hide RmpItems, DecodeItems;
    var buf, tail := RmpBytes(f) + rest, RmpItems(f, Children(f)) + rest;
    assert buf[1..] == U32Bytes(CountOf(f)) + tail && buf[5..] == tail;
    LenRoundTrip(CountOf(f), tail);
    if f.Map? {
      PairUpInterleave(f.pairs);
    }
  }

  /** Decoding what was encoded gives the frame back and takes exactly its bytes, whatever follows,
      when it is not too deep; when it is, it is refused. */
  lemma {:induction false} FrameRoundTrip(f: Frame, rest: Bytes, d: nat)
    requires Typed(f) && NoPush(f) && |RmpBytes(f)| <= MAX_RMP_FRAME_LEN
    ensures d + Height(f) <= MAX_RMP_NESTING_DEPTH ==> DecodeFrame(RmpBytes(f) + rest, d) == Got(f, |RmpBytes(f)|)
    ensures d + Height(f) > MAX_RMP_NESTING_DEPTH ==> DecodeFrame(RmpBytes(f) + rest, d) == Bad(TooDeep)
    decreases f
  {
    hide RmpItems, DecodeItems, Utf8, HeightAll;
    if d > MAX_RMP_NESTING_DEPTH {
    } else if !Nested(f) {
      LeafRoundTrip(f, rest, d);
    } else {
      NestedDecode(f, rest, d);
      ItemsRoundTrip(f, Children(f), rest, d + 1);
    }
  }

  lemma {:induction false} ItemsRoundTrip(parent: Frame, fs: seq<Frame>, rest: Bytes, d: nat)
    requires forall i :: 0 <= i < |fs| ==> fs[i] < parent && Typed(fs[i]) && NoPush(fs[i])
    requires |RmpItems(parent, fs)| <= MAX_RMP_FRAME_LEN
    ensures fs == [] || d + HeightAll(parent, fs) <= MAX_RMP_NESTING_DEPTH ==>
      DecodeItems(RmpItems(parent, fs) + rest, |fs|, d) == Got(fs, |RmpItems(parent, fs)|)
    ensures fs != [] && d + HeightAll(parent, fs) > MAX_RMP_NESTING_DEPTH ==>
      DecodeItems(RmpItems(parent, fs) + rest, |fs|, d) == Bad(TooDeep)
    decreases parent, |fs|
  {
    hide RmpBytes, DecodeFrame, Utf8, Height, Typed, NoPush;
    if fs != [] {
      var head, tail := RmpBytes(fs[0]), RmpItems(parent, fs[1..]);
      assert head + tail + rest == head + (tail + rest);
      FrameRoundTrip(fs[0], tail + rest, d);
      assert (head + (tail + rest))[|head|..] == tail + rest;
      ItemsRoundTrip(parent, fs[1..], rest, d);
      if fs[1..] == [] {
        assert HeightAll(parent, fs[1..]) == 0;
      }
      assert fs == [fs[0]] + fs[1..];
    }
  }

  // ----- encoding undoes decoding -----

  function Nodes(f: Frame): (n: nat)
    decreases f
  {
    1 + NodesAll(f, Children(f))
  }

  function NodesAll(parent: Frame, fs: seq<Frame>): (n: nat)
    requires forall i :: 0 <= i < |fs| ==> fs[i] < parent
    decreases parent, |fs|
  {
    if fs == [] then 0 else Nodes(fs[0]) + NodesAll(parent, fs[1..])
  }

  /** What a successful decode of `used` bytes says about the frame. */
  predicate Canonical(f: Frame, s: Bytes, d: nat)
  {
    Typed(f) && NoPush(f) && RmpBytes(f) == s && d + Height(f) <= MAX_RMP_NESTING_DEPTH && Nodes(f) <= |s|
  }

  predicate CanonicalAll(parent: Frame, fs: seq<Frame>, s: Bytes, d: nat)
    requires forall i :: 0 <= i < |fs| ==> fs[i] < parent
  {
    && (forall i :: 0 <= i < |fs| ==> Typed(fs[i]) && NoPush(fs[i])) && RmpItems(parent, fs) == s
    && (fs == [] || d + HeightAll(parent, fs) <= MAX_RMP_NESTING_DEPTH) && NodesAll(parent, fs) <= |s|
  }

  lemma LenCanonical(buf: Bytes)
    requires TakeLen(buf).Got?
    ensures U32Bytes(TakeLen(buf).value) == buf[..4]
  {
    BigEndianOfNumber(buf[..4]);
  }

  lemma IntegerCanonical(buf: Bytes)
    requires |buf| >= 8
    ensures I64_MIN <= Signed(Number(buf[..8])) <= I64_MAX && I64Bytes(Signed(Number(buf[..8]))) == buf[..8]
  {
    BigEndianOfNumber(buf[..8]);
    assert Pow256(4) == U32 && Pow256(6) == U32 * 65536 && Pow256(8) == U64;
  }

  lemma LeafCanonical(tag: byte, buf: Bytes, d: nat)
    requires DecodeLeaf(tag, buf).Got? && d <= MAX_RMP_NESTING_DEPTH
    ensures Canonical(DecodeLeaf(tag, buf).value, [tag] + buf[..DecodeLeaf(tag, buf).used], d)
  {
    hide Utf8;
    var Got(f, used) := DecodeLeaf(tag, buf);
    assert Children(f) == [] && NodesAll(f, []) == 0;
    if tag == 3 {
      IntegerCanonical(buf);
    } else if tag != 0 {
      LenCanonical(buf);
      assert buf[..4] + buf[4..used] == buf[..used];
      assert [tag] + buf[..4] + buf[4..used] == [tag] + buf[..used];
    } else {
      assert buf[..0] == [];
    }
  }

  /** A nested frame is canonical when its header and its items are. */
  lemma NestedCanonical(f: Frame, head: Bytes, tail: Bytes, d: nat)
    requires Nested(f) && !f.Push? && head == [Tag(f)] + U32Bytes(CountOf(f)) && d <= MAX_RMP_NESTING_DEPTH
    requires CanonicalAll(f, Children(f), tail, d + 1) && |Children(f)| <= I64_MAX
    ensures Canonical(f, head + tail, d)
  {
    hide Utf8, RmpItems, NodesAll, HeightAll, U32Bytes, Tag;
  }

  /** Every frame the decoder returns is at most 32 levels deep, has no more frames than bytes, and is
      the only frame with those bytes: encoding it gives exactly the bytes that were read. */
  lemma {:induction false} DecodedIsCanonical(buf: Bytes, d: nat)
    requires DecodeFrame(buf, d).Got?
    ensures Canonical(DecodeFrame(buf, d).value, buf[..DecodeFrame(buf, d).used], d)
    decreases |buf|, 0
  {
    hide Canonical, CanonicalAll, DecodeItems, DecodeLeaf, U32Bytes;
    var Got(f, used) := DecodeFrame(buf, d);
    if buf[0] == 5 || buf[0] == 6 {
      var count := TakeLen(buf[1..]).value;
      var n := if buf[0] == 6 then 2 * count else count;
      var fs := DecodeItems(buf[5..], n, d + 1).value;
      if buf[0] == 6 {
        InterleavePairUp(fs);
      }
      assert Children(f) == fs;
      ItemsCanonical(f, buf[5..], n, d + 1);
      LenCanonical(buf[1..]);
      assert buf[1..][..4] == buf[1..5];
      NestedCanonical(f, [buf[0]] + buf[1..5], buf[5..][..used - 5], d);
      assert ([buf[0]] + buf[1..5]) + buf[5..][..used - 5] == buf[..used];
    } else {
      LeafCanonical(buf[0], buf[1..], d);
      assert [buf[0]] + buf[1..][..used - 1] == buf[..used];
    }
  }

  lemma ConsCanonical(parent: Frame, fs: seq<Frame>, s: Bytes, t: Bytes, d: nat)
    requires fs != [] && (forall i :: 0 <= i < |fs| ==> fs[i] < parent)
    requires Canonical(fs[0], s, d) && CanonicalAll(parent, fs[1..], t, d)
    ensures CanonicalAll(parent, fs, s + t, d)
  {
    hide RmpBytes, Typed, NoPush, Nodes, Height;
    if fs[1..] == [] {
      assert HeightAll(parent, fs[1..]) == 0;
    }
    forall i | 0 <= i < |fs| ensures Typed(fs[i]) && NoPush(fs[i]) {
      assert i > 0 ==> fs[i] == fs[1..][i - 1];
    }
  }

  lemma {:induction false} ItemsCanonical(parent: Frame, buf: Bytes, count: nat, d: nat)
    requires DecodeItems(buf, count, d).Got?
    requires forall i :: 0 <= i < count ==> DecodeItems(buf, count, d).value[i] < parent
    ensures CanonicalAll(parent, DecodeItems(buf, count, d).value, buf[..DecodeItems(buf, count, d).used], d)
    decreases |buf|, 1
  {
    hide DecodeFrame, Canonical, CanonicalAll;
    if count == 0 {
      assert buf[..0] == [];
      NothingCanonical(parent, d);
    } else {
      var Got(f, used) := DecodeFrame(buf, d);
      var Got(fs, more) := DecodeItems(buf[used..], count - 1, d);
      var all := DecodeItems(buf, count, d).value;
      assert all == [f] + fs && all[1..] == fs;
      forall i | 0 <= i < count - 1 ensures fs[i] < parent {
        assert fs[i] == all[i + 1];
      }
      DecodedIsCanonical(buf, d);
      ItemsCanonical(parent, buf[used..], count - 1, d);
      ConsCanonical(parent, all, buf[..used], buf[used..][..more], d);
      assert buf[..used] + buf[used..][..more] == buf[..used + more];
    }
  }

  lemma NothingCanonical(parent: Frame, d: nat)
    ensures CanonicalAll(parent, [], [], d)
  {
  }
}
