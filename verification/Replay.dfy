// Replaying an append-only file that may end anywhere: crates/server/src/aof.rs:537-620.
module Replay {
  import opened Bytes
  import opened Frames
  import opened Resp
  import opened RespStream
  import opened Commands
  import opened Grouping

  // ----- the engine a replay fills -----

  class Engine {
    var store: Store

    constructor (initial: Store)
      ensures store == initial
    {
      store := initial;
    }

    /** `dispatch`, one locked step after another. */
    method DispatchFrame(f: Frame)
      modifies this
      ensures store == Dispatch(f, old(store))
    {
      hide Step, CommandOf, StepCount;
      if CommandOf(f).None? {
        return;
      }
      var c := CommandOf(f).value;
      var n, o := 0, Continue(START);
      while n < StepCount(c)
        invariant n <= StepCount(c)
        invariant (store, o) == After(c, n, old(store))
      {
        if o.Continue? {
          var step := Step(c, o.x, store);
          store, o := step.0, step.1;
        }
        n := n + 1;
      }
    }
  }

  // ----- what a replay of bytes is -----

  /** `applied`: the frames handed to `dispatch`, in order. `valid`: where the file is cut.
      `crashed`: the parser panicked, and startup with it. */
  datatype Scan = Scan(applied: seq<Frame>, valid: nat, crashed: bool)

  /** A frame of `n` bytes released `out` and left `q` pending; the rest of the scan was `r`.
      The file may be cut after this frame only when nothing is pending. */
  function Join(q: Pending, out: seq<Frame>, n: nat, r: Scan): (j: Scan)
  {
    Scan(out + r.applied, if q.None? || r.valid > 0 then n + r.valid else 0, r.crashed)
  }

  function ScanBytes(buf: Bytes, p: Pending): (r: Scan)
    ensures r.valid <= |buf|
    decreases |buf|
  {
    match ParseFrame(buf)
    case Parsed(f, n) =>
      (match Feed(p, f)
       case Malformed => Scan([], 0, false)
       case Fed(q, out) => Join(q, out, n, ScanBytes(buf[n..], q)))
    case Panicked => Scan([], 0, true)
    case _ => Scan([], 0, false)
  }

  /** Applies `fs` with one dispatch each. */
  method ApplyAll(engine: Engine, fs: seq<Frame>)
    modifies engine
    ensures engine.store == Fold(old(engine.store), fs)
  {
    var i := 0;
    while i < |fs|
      invariant 0 <= i <= |fs|
      invariant engine.store == Fold(old(engine.store), fs[..i])
    {
      engine.DispatchFrame(fs[i]);
      FoldSnoc(old(engine.store), fs[..i], fs[i]);
      assert fs[..i + 1] == fs[..i] + [fs[i]];
      i := i + 1;
    }
    assert fs[..i] == fs;
  }

  /** The whole scan is what is done so far followed by the scan of what is left. */
  predicate Continues(whole: Scan, done: seq<Frame>, used: nat, safe: nat, rest: Scan)
  {
    && whole.applied == done + rest.applied
    && whole.crashed == rest.crashed
    && whole.valid == if rest.valid > 0 then used + rest.valid else safe
  }

  lemma ContinuesStep(whole: Scan, done: seq<Frame>, used: nat, safe: nat, buf: Bytes, p: Pending)
    requires Continues(whole, done, used, safe, ScanBytes(buf, p))
    requires ParseFrame(buf).Parsed? && Feed(p, ParseFrame(buf).value).Fed?
    ensures var Parsed(f, n) := ParseFrame(buf);
            var Fed(q, out) := Feed(p, f);
            Continues(whole, done + out, used + n, if q.None? then used + n else safe, ScanBytes(buf[n..], q))
  {
    hide ParseFrame, Feed;
    var Parsed(f, n) := ParseFrame(buf);
    var Fed(q, out) := Feed(p, f);
    var r := ScanBytes(buf[n..], q);
    assert done + (out + r.applied) == (done + out) + r.applied;
  }

  lemma ContinuesEnd(whole: Scan, done: seq<Frame>, used: nat, safe: nat, buf: Bytes, p: Pending)
    requires Continues(whole, done, used, safe, ScanBytes(buf, p))
    requires ParseFrame(buf).Parsed? ==> Feed(p, ParseFrame(buf).value).Malformed?
    ensures whole == Scan(done, safe, ParseFrame(buf).Panicked?)
  {
    hide ParseFrame, Feed;
    assert done + [] == done;
  }

  /** `replay_with_stats` on a file's bytes. A panicking parser ends the process: `crashed`. */
  method ReplayWithStats(raw: Bytes, startAt: nat, engine: Engine)
      returns (commands: nat, replayed: nat, kept: Bytes, crashed: bool)
    modifies engine
    ensures var start := if startAt < |raw| then startAt else |raw|;
            var r := ScanBytes(raw[start..], None);
            && crashed == r.crashed
            && commands == |r.applied|
            && engine.store == Fold(old(engine.store), r.applied)
            && (!crashed ==> replayed == r.valid && kept == raw[..start + r.valid])
  {
    hide ParseFrame, Dispatch, Feed, Fold, ScanBytes;
    var start := if startAt < |raw| then startAt else |raw|;
    var buf, consumedTotal, validLen := raw[start..], start, start;
    commands, replayed, kept, crashed := 0, 0, raw, false;
    var grouper := new TransactionGrouper();
    ghost var done: seq<Frame> := [];
    ghost var whole := ScanBytes(raw[start..], None);
    FoldNothing(engine.store);
    assert [] + whole.applied == whole.applied;
    while true
      invariant start <= validLen <= consumedTotal <= |raw| && buf == raw[consumedTotal..]
      invariant fresh(grouper) && commands == |done| && engine.store == Fold(old(engine.store), done)
      invariant !crashed
      invariant Continues(whole, done, consumedTotal - start, validLen - start, ScanBytes(buf, grouper.buffer))
      decreases |buf|
    {
      var frame := ParseFrameLoop(buf);
      if !frame.Parsed? {
        ContinuesEnd(whole, done, consumedTotal - start, validLen - start, buf, grouper.buffer);
        crashed := frame.Panicked?;
        break;
      }
      ghost var before := grouper.buffer;
      var ok, out := grouper.FeedFrame(frame.value);
      if !ok {
        ContinuesEnd(whole, done, consumedTotal - start, validLen - start, buf, before);
        break;
      }
      ContinuesStep(whole, done, consumedTotal - start, validLen - start, buf, before);
      buf, consumedTotal := buf[frame.used..], consumedTotal + frame.used;
      var mid := grouper.IsMidTransaction();
      if !mid {
        validLen := consumedTotal;
      }
      ApplyAll(engine, out);
      FoldAppend(old(engine.store), done, out);
      commands, done := commands + |out|, done + out;
    }
    replayed, kept := validLen - start, raw[..validLen];
  }
}
