// Transaction brackets in the log: crates/server/src/transaction_grouping.rs.
module Grouping {
  import opened Bytes
  import opened Frames
  import opened Commands

  datatype Marker = NoMarker | MultiMarker | ExecMarker

  const MULTI: Bytes := [77, 85, 76, 84, 73]
  const EXEC: Bytes := [69, 88, 69, 67]

  const MULTI_FRAME: Frame := Array([Bulk(MULTI)])
  const EXEC_FRAME: Frame := Array([Bulk(EXEC)])

  /** A marker has no arguments; its case does not matter. */
  function MarkerOf(f: Frame): (m: Marker)
  {
    if f.Array? && |f.items| == 1 && f.items[0].Bulk? then
      var name := UpperName(f.items[0].data);
      if name == Some(MULTI) then MultiMarker
      else if name == Some(EXEC) then ExecMarker
      else NoMarker
    else NoMarker
  }

  lemma MarkersAreMarkers()
    ensures MarkerOf(MULTI_FRAME) == MultiMarker && MarkerOf(EXEC_FRAME) == ExecMarker
  {
    assert UpperName(MULTI).value == MULTI;
    assert UpperName(EXEC).value == EXEC;
  }

  /** In any letter case, and only without arguments. */
  lemma MarkerSpelled(raw: Bytes, more: seq<Frame>)
    ensures Spells(raw, [77, 85, 76, 84, 73]) ==> MarkerOf(Array([Bulk(raw)])) == MultiMarker
    ensures Spells(raw, [69, 88, 69, 67]) ==> MarkerOf(Array([Bulk(raw)])) == ExecMarker
    ensures more != [] ==> MarkerOf(Array([Bulk(raw)] + more)) == NoMarker
  {
    hide UpperName;
    if Spells(raw, [77, 85, 76, 84, 73]) {
      SpelledName(raw, MULTI);
    }
    if Spells(raw, [69, 88, 69, 67]) {
      SpelledName(raw, EXEC);
    }
    assert MULTI[0] != EXEC[0];
  }

  /** No command frame is a marker, so replaying a marker through `dispatch` does nothing. */
  lemma MarkerIsNoCommand(f: Frame)
    ensures MarkerOf(f) != NoMarker ==> CommandOf(f).None?
    ensures CommandOf(f).Some? ==> MarkerOf(f) == NoMarker
  {
    if MarkerOf(f) != NoMarker {
      assert Args(f).value[0] == f.items[0].data;
    }
  }

  lemma MarkerDispatch(f: Frame, s: Store)
    requires MarkerOf(f) != NoMarker
    ensures Dispatch(f, s) == s
  {
    MarkerIsNoCommand(f);
  }

  type Pending = Option<seq<Frame>>

  /** `Fed`: the frames released by this one. */
  datatype Feeding = Fed(pending: Pending, out: seq<Frame>) | Malformed

  function Feed(p: Pending, f: Frame): (r: Feeding)
  {
    match MarkerOf(f)
    case MultiMarker => if p.Some? then Malformed else Fed(Some([]), [])
    case ExecMarker => if p.Some? then Fed(None, p.value) else Malformed
    case NoMarker => if p.Some? then Fed(Some(p.value + [f]), []) else Fed(None, [f])
  }

  class TransactionGrouper {
    var buffer: Pending

    constructor ()
      ensures buffer == None
    {
      buffer := None;
    }

    method IsMidTransaction() returns (r: bool)
      ensures r == buffer.Some?
    {
      return buffer.Some?;
    }

    /** A malformed frame is reported and leaves the buffer as it was. */
    method FeedFrame(f: Frame) returns (ok: bool, out: seq<Frame>)
      modifies this
      ensures ok == !Feed(old(buffer), f).Malformed?
      ensures ok ==> Feed(old(buffer), f) == Fed(buffer, out)
      ensures !ok ==> buffer == old(buffer) && out == []
    {
      match MarkerOf(f) {
        case MultiMarker =>
          if buffer.Some? {
            return false, [];
          }
          buffer := Some([]);
          return true, [];
        case ExecMarker =>
          if buffer.None? {
            return false, [];
          }
          out := buffer.value;
          buffer := None;
          return true, out;
        case NoMarker =>
          if buffer.Some? {
            buffer := Some(buffer.value + [f]);
            return true, [];
          }
          return true, [f];
      }
    }
  }

  // ----- whole streams -----

  /** Whether a reader that stops at the first malformed frame gets through `fs`, and what it
      has pending at the end. */
  function Bracket(p: Pending, fs: seq<Frame>): (r: Option<Pending>)
  {
    if fs == [] then Some(p)
    else match Bracket(p, fs[..|fs| - 1])
      case None => None
      case Some(q) =>
        (match Feed(q, fs[|fs| - 1])
         case Malformed => None
         case Fed(q', _) => Some(q'))
  }

  /** What that reader has handed on so far. */
  function Released(p: Pending, fs: seq<Frame>): (r: seq<Frame>)
    requires Bracket(p, fs).Some?
  {
    if fs == [] then []
    else
      var q := Bracket(p, fs[..|fs| - 1]).value;
      Released(p, fs[..|fs| - 1]) + Feed(q, fs[|fs| - 1]).out
  }

  /** What a follower has pending: it skips a malformed frame and goes on. */
  function Lenient(p: Pending, fs: seq<Frame>): (r: Pending)
  {
    if fs == [] then p
    else
      var q := Lenient(p, fs[..|fs| - 1]);
      match Feed(q, fs[|fs| - 1])
      case Malformed => q
      case Fed(q', _) => q'
  }

  /** What a follower has handed on. */
  function LenientReleased(p: Pending, fs: seq<Frame>): (r: seq<Frame>)
  {
    if fs == [] then []
    else
      var q := Lenient(p, fs[..|fs| - 1]);
      LenientReleased(p, fs[..|fs| - 1])
      + match Feed(q, fs[|fs| - 1]) { case Malformed => [] case Fed(_, out) => out }
  }

  function PendingFrames(p: Pending): (r: seq<Frame>) { if p.Some? then p.value else [] }

  /** Nothing is lost or reordered: released and pending frames together rebuild the keyspace
      that applying every frame at once gives. */
  lemma {:induction false} LenientIsFold(s: Store, fs: seq<Frame>)
    ensures Fold(Fold(s, LenientReleased(None, fs)), PendingFrames(Lenient(None, fs))) == Fold(s, fs)
  {
    hide Dispatch, MarkerOf;
    if fs != [] {
      var front, f := fs[..|fs| - 1], fs[|fs| - 1];
      LenientIsFold(s, front);
      var q, out := Lenient(None, front), LenientReleased(None, front);
      assert fs == front + [f];
      assert out + [] == out;
      FoldSnoc(s, front, f);
      if MarkerOf(f) != NoMarker {
        MarkerDispatch(f, Fold(s, front));
        if MarkerOf(f) == ExecMarker && q.Some? {
          FoldAppend(s, out, q.value);
        }
      } else if q.Some? {
        FoldSnoc(Fold(s, out), q.value, f);
      } else {
        FoldSnoc(s, out, f);
      }
    }
  }

  /** The strict reader sees what the lenient one sees, as long as it gets through. */
  lemma {:induction false} StrictIsLenient(p: Pending, fs: seq<Frame>)
    requires Bracket(p, fs).Some?
    ensures Bracket(p, fs).value == Lenient(p, fs) && Released(p, fs) == LenientReleased(p, fs)
  {
    if fs != [] {
      StrictIsLenient(p, fs[..|fs| - 1]);
    }
  }

  /** A stream with every bracket closed replays to the plain application of its frames. */
  lemma BalancedIsFold(s: Store, fs: seq<Frame>)
    requires Bracket(None, fs) == Some(None)
    ensures Fold(s, Released(None, fs)) == Fold(s, fs)
  {
    StrictIsLenient(None, fs);
    LenientIsFold(s, fs);
  }

  lemma {:induction false} BracketAppend(p: Pending, a: seq<Frame>, b: seq<Frame>)
    ensures Bracket(p, a + b) == match Bracket(p, a) { case None => None case Some(q) => Bracket(q, b) }
    ensures Bracket(p, a + b).Some? ==>
              Released(p, a + b) == Released(p, a) + Released(Bracket(p, a).value, b)
    decreases |b|
  {
    hide Feed;
    if b == [] {
      assert a + b == a;
      if Bracket(p, a).Some? {
        assert Released(p, a) + [] == Released(p, a);
      }
    } else {
      var b', f := b[..|b| - 1], b[|b| - 1];
      BracketAppend(p, a, b');
      assert (a + b)[..|a + b| - 1] == a + b' && (a + b)[|a + b| - 1] == f;
      if Bracket(p, a + b).Some? {
        var out := Feed(Bracket(p, a + b').value, f).out;
        assert Released(p, a + b) == Released(p, a + b') + out;
        assert Released(p, a) + Released(Bracket(p, a).value, b') + out == Released(p, a) + (Released(Bracket(p, a).value, b') + out);
      }
    }
  }
}
