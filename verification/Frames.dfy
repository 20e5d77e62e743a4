// Reply and request frames: crates/protocol/src/frame.rs.
module Frames {
  import opened Bytes

  datatype Frame =
    | Simple(text: Bytes)
    | Error(text: Bytes)
    | Integer(n: int)
    | Bulk(data: Bytes)
    | Null
    | Array(items: seq<Frame>)
    | Map(pairs: seq<(Frame, Frame)>)
    | Push(pushed: seq<Frame>)

  /** A map's keys and values in wire order. */
  function Interleave(pairs: seq<(Frame, Frame)>): (r: seq<Frame>)
    ensures |r| == 2 * |pairs|
    ensures forall i :: 0 <= i < |r| ==> r[i] == if i % 2 == 0 then pairs[i / 2].0 else pairs[i / 2].1
  {
    if pairs == [] then [] else [pairs[0].0, pairs[0].1] + Interleave(pairs[1..])
  }

  /** The frames nested directly inside `f`, in wire order. */
  function Children(f: Frame): (r: seq<Frame>)
    ensures forall i :: 0 <= i < |r| ==> r[i] < f
  {
    match f
    case Array(items) => items
    case Push(items) => items
    case Map(pairs) => Interleave(pairs)
    case _ => []
  }

  predicate Nested(f: Frame) { f.Array? || f.Map? || f.Push? }

  /** What Rust's own types already guarantee of a frame: text is UTF-8, an integer is an
      `i64`, and no buffer or vector is longer than `isize::MAX`. */
  predicate Typed(f: Frame)
    decreases f
  {
    match f
    case Simple(s) => Utf8(s)
    case Error(s) => Utf8(s)
    case Integer(n) => I64_MIN <= n <= I64_MAX
    case Bulk(b) => |b| <= I64_MAX
    case Null => true
    case _ => |Children(f)| <= I64_MAX && forall i :: 0 <= i < |Children(f)| ==> Typed(Children(f)[i])
  }

  /** A request: a name and its arguments. */
  function Request(name: Bytes, args: seq<Bytes>): (f: Frame)
  {
    Array([Bulk(name)] + seq(|args|, i requires 0 <= i < |args| => Bulk(args[i])))
  }
}
