// The write commands of the model and how the engine runs them: one shard lock at a time.
// crates/server/src/dispatcher.rs (dispatch, command_keys) and crates/engine/src/commands.
module Commands {
  import opened Bytes
  import opened Frames
  import opened Names

  type Store = map<Bytes, Bytes>

  /** The key hash of `Store::shard_index`; every result below holds for any hash. */
  type Hash = Bytes -> nat

  const SHARD_COUNT: nat := 16

  function ShardOf(h: Hash, key: Bytes): (i: nat)
    ensures i < SHARD_COUNT
  {
    h(key) % SHARD_COUNT
  }

  function Lookup(s: Store, k: Bytes): (r: Option<Bytes>)
  {
    if k in s then Some(s[k]) else None
  }

  datatype Command =
    | Set(key: Bytes, val: Bytes)
    | Append(key: Bytes, suffix: Bytes)
    | Incr(key: Bytes)
    | Del(keys: seq<Bytes>)
    | MSet(pairs: seq<Bytes>)
    | Rename(src: Bytes, dst: Bytes)

  const SET: Bytes := [83, 69, 84]
  const APPEND: Bytes := [65, 80, 80, 69, 78, 68]
  const INCR: Bytes := [73, 78, 67, 82]
  const DEL: Bytes := [68, 69, 76]
  const MSET: Bytes := [77, 83, 69, 84]
  const RENAME: Bytes := [82, 69, 78, 65, 77, 69]

  /** `frame_to_args`: a request is an array of bulk strings. */
  function Args(f: Frame): (r: Option<seq<Bytes>>)
  {
    if f.Array? && forall i :: 0 <= i < |f.items| ==> f.items[i].Bulk? then
      Some(seq(|f.items|, i requires 0 <= i < |f.items| => f.items[i].data))
    else None
  }

  /** The name a request is looked up by. */
  function NameOf(f: Frame): (r: Option<string>)
  {
    if f.Array? && f.items != [] && f.items[0].Bulk? && UpperName(f.items[0].data).Some? then
      Some(Text(UpperName(f.items[0].data).value))
    else None
  }

  /** `extract_write_command_name`: by name alone, whatever the arguments. */
  predicate NamesWrite(f: Frame) { NameOf(f).Some? && WriteName(NameOf(f).value) }

  lemma SixNames()
    ensures Text(SET) == "SET" && Text(APPEND) == "APPEND" && Text(INCR) == "INCR"
    ensures Text(DEL) == "DEL" && Text(MSET) == "MSET" && Text(RENAME) == "RENAME"
  {
  }

  lemma SixWrites()
    ensures WriteName("SET") && WriteName("APPEND") && WriteName("INCR")
    ensures WriteName("DEL") && WriteName("MSET") && WriteName("RENAME")
  {
  }

  /** EX, PX, NX and XX, which the model does not run; any other word behind a SET is ignored. */
  predicate SetOption(b: Bytes)
  {
    var name := UpperName(b);
    name == Some([69, 88]) || name == Some([80, 88]) || name == Some([78, 88]) || name == Some([88, 88])
  }

  /** The command a frame asks for; `None` is answered with an error and changes nothing. */
  function CommandOf(f: Frame): (r: Option<Command>)
    ensures r.Some? && r.value.Del? ==> r.value.keys != []
    ensures r.Some? ==> NamesWrite(f)
    ensures r.Some? && r.value.MSet? ==> r.value.pairs != [] && |r.value.pairs| % 2 == 0
  {
    var args := Args(f);
    SixNames();
    SixWrites();
    if args.None? || args.value == [] then None
    else
      var name, rest := UpperName(args.value[0]), args.value[1..];
      if name == Some(SET) && |rest| >= 2 && forall i :: 2 <= i < |rest| ==> !SetOption(rest[i]) then Some(Set(rest[0], rest[1]))
      else if name == Some(APPEND) && |rest| >= 2 then Some(Append(rest[0], rest[1]))
      else if name == Some(INCR) && |rest| >= 1 then Some(Incr(rest[0]))
      else if name == Some(DEL) && |rest| >= 1 then Some(Del(rest))
      else if name == Some(MSET) && |rest| >= 2 && |rest| % 2 == 0 then Some(MSet(rest))
      else if name == Some(RENAME) && |rest| >= 2 then Some(Rename(rest[0], rest[1]))
      else None
  }

  // ----- what a command means -----

  /** Every pair in order, so the last value of a repeated key wins. */
  function SetPairs(s: Store, pairs: seq<Bytes>): (r: Store)
    decreases |pairs|
  {
    if |pairs| < 2 then s else SetPairs(s[pairs[0] := pairs[1]], pairs[2..])
  }

  function Increment(was: Option<Bytes>): (r: Option<Bytes>)
  {
    if was.None? then Some(PrintInt(1))
    else match ParseI64(was.value)
      case None => None
      case Some(n) => if n == I64_MAX then None else Some(PrintInt(n + 1))
  }

  /** INCR counts in the integers until the largest `i64`, which it refuses to pass. */
  lemma IncrementCounts(n: int)
    requires I64_MIN <= n <= I64_MAX
    ensures Increment(Some(PrintInt(n))) == if n < I64_MAX then Some(PrintInt(n + 1)) else None
  {
    hide PrintInt, ParseI64;
    ParseOfPrint(n);
  }

  /** The new keyspace, or `None` when the command is refused. */
  function Apply(c: Command, s: Store): (r: Option<Store>)
  {
    match c
    case Set(k, v) => Some(s[k := v])
    case Append(k, v) => Some(s[k := if k in s then s[k] + v else v])
    case Incr(k) =>
      (match Increment(Lookup(s, k))
       case None => None
       case Some(v) => Some(s[k := v]))
    case Del(keys) => Some(map k | k in s && k !in keys :: s[k])
    case MSet(pairs) => Some(SetPairs(s, pairs))
    case Rename(src, dst) =>
      if src !in s then None
      else if src == dst then Some(s)
      else Some((s - {src})[dst := s[src]])
  }

  // ----- how it runs: each step holds one shard's lock -----

  /** The step a command is at and the value `RENAME` carries between two of its steps. */
  datatype Exec = Exec(pc: nat, reg: Option<Bytes>)
  datatype Outcome = Continue(x: Exec) | Done | Refused

  const START: Exec := Exec(0, None)

  /** The one key the next step touches. */
  function StepKey(c: Command, x: Exec): (k: Bytes)
  {
    match c
    case Set(k, _) => k
    case Append(k, _) => k
    case Incr(k) => k
    case Del(keys) => if x.pc < |keys| then keys[x.pc] else []
    case MSet(pairs) => if 2 * x.pc + 1 < |pairs| then pairs[2 * x.pc] else []
    case Rename(src, dst) => if x.pc == 1 then dst else src
  }

  /** What a step leaves at its key, given what was there. */
  function StepValue(c: Command, x: Exec, was: Option<Bytes>): (r: Option<Bytes>)
  {
    match c
    case Set(_, v) => Some(v)
    case Append(_, v) =>
      if x.pc > 0 then Some(v) else if was.None? then None else Some(was.value + v)
    case Incr(_) =>
      if x.pc > 0 then Some(PrintInt(1))
      else if was.None? || Increment(was).None? then was
      else Increment(was)
    case Del(keys) => if x.pc < |keys| then None else was
    case MSet(pairs) => if 2 * x.pc + 1 < |pairs| then Some(pairs[2 * x.pc + 1]) else was
    case Rename(src, dst) => if x.pc == 0 then was else if x.pc == 1 then x.reg else None
  }

  /** Where the command goes after a step. */
  function StepNext(c: Command, x: Exec, was: Option<Bytes>): (o: Outcome)
    ensures o.Continue? ==> o.x.pc == x.pc + 1
  {
    var next := Continue(Exec(x.pc + 1, x.reg));
    match c
    case Set(_, _) => Done
    case Append(_, _) => if x.pc == 0 && was.None? then next else Done
    case Incr(_) =>
      if x.pc == 0 && was.None? then next
      else if x.pc == 0 && Increment(was).None? then Refused
      else Done
    case Del(keys) => if x.pc + 1 < |keys| then next else Done
    case MSet(pairs) => if 2 * x.pc + 3 < |pairs| then next else Done
    case Rename(src, dst) =>
      if x.pc == 0 then
        (if was.None? then Refused
         else if src == dst then Done
         else Continue(Exec(1, was)))
      else if x.pc == 1 then next
      else Done
  }

  function Put(s: Store, k: Bytes, v: Option<Bytes>): (r: Store)
    ensures forall q :: Lookup(r, q) == if q == k then v else Lookup(s, q)
  {
    if v.Some? then s[k := v.value] else s - {k}
  }

  /** One step on the shared store. */
  function Step(c: Command, x: Exec, s: Store): (r: (Store, Outcome))
  {
    var k := StepKey(c, x);
    var was := Lookup(s, k);
    (Put(s, k, StepValue(c, x, was)), StepNext(c, x, was))
  }

  /** The store and position after at most `n` steps with nobody else running. */
  function After(c: Command, n: nat, s: Store): (r: (Store, Outcome))
    ensures r.1.Continue? ==> r.1.x.pc == n
  {
    if n == 0 then (s, Continue(START))
    else
      var (t, o) := After(c, n - 1, s);
      if o.Continue? then Step(c, o.x, t) else (t, o)
  }

  function StepCount(c: Command): (n: nat)
  {
    match c
    case Set(_, _) => 1
    case Append(_, _) => 2
    case Incr(_) => 2
    case Del(keys) => |keys|
    case MSet(pairs) => |pairs| / 2
    case Rename(_, _) => 3
  }

  /** `dispatch`: runs the frame's command to the end. */
  function Dispatch(f: Frame, s: Store): (r: Store)
  {
    if CommandOf(f).None? then s else After(CommandOf(f).value, StepCount(CommandOf(f).value), s).0
  }

  /** Applies frames in order, as replay and the follower loop do. */
  function Fold(s: Store, fs: seq<Frame>): (r: Store)
  {
    if fs == [] then s else Dispatch(fs[|fs| - 1], Fold(s, fs[..|fs| - 1]))
  }

  // ----- the steps add up to the meaning -----

  lemma SameStore(s: Store, t: Store)
    requires forall k :: Lookup(s, k) == Lookup(t, k)
    ensures s == t
  {
    assert forall k :: k in s <==> Lookup(s, k).Some?;
    assert forall k :: k in t <==> Lookup(t, k).Some?;
    assert forall k :: k in s ==> Lookup(s, k) == Some(s[k]);
  }

  lemma {:induction false} DelSteps(keys: seq<Bytes>, n: nat, s: Store)
    requires keys != [] && n <= |keys|
    ensures var (t, o) := After(Del(keys), n, s);
            && t == (map k | k in s && k !in keys[..n] :: s[k])
            && o == if n == |keys| then Done else Continue(Exec(n, None))
  {
    hide Step;
    if n == 0 {
      assert keys[..0] == [];
      assert s == (map k | k in s && k !in keys[..0] :: s[k]);
    } else {
      DelSteps(keys, n - 1, s);
      DelStep(keys, n - 1, s);
    }
  }

  lemma DelStep(keys: seq<Bytes>, n: nat, s: Store)
    requires n < |keys|
    ensures var (t, o) := Step(Del(keys), Exec(n, None), map k | k in s && k !in keys[..n] :: s[k]);
            && t == (map k | k in s && k !in keys[..n + 1] :: s[k])
            && o == if n + 1 == |keys| then Done else Continue(Exec(n + 1, None))
  {
    assert keys[..n + 1] == keys[..n] + [keys[n]];
  }

  lemma {:induction false} SetPairsSnoc(s: Store, pairs: seq<Bytes>, n: nat)
    requires 2 * n + 1 < |pairs|
    ensures SetPairs(s, pairs[..2 * n + 2]) == SetPairs(s, pairs[..2 * n])[pairs[2 * n] := pairs[2 * n + 1]]
    decreases n
  {
    var head := pairs[..2 * n + 2];
    if n == 0 {
      assert head[2..] == [];
    } else {
      SetPairsSnoc(s[pairs[0] := pairs[1]], pairs[2..], n - 1);
      assert head[2..] == pairs[2..][..2 * (n - 1) + 2] && pairs[..2 * n][2..] == pairs[2..][..2 * (n - 1)];
    }
  }

  lemma {:induction false} MSetSteps(pairs: seq<Bytes>, n: nat, s: Store)
    requires pairs != [] && |pairs| % 2 == 0 && 2 * n <= |pairs|
    ensures var (t, o) := After(MSet(pairs), n, s);
            && t == SetPairs(s, pairs[..2 * n])
            && o == if 2 * n == |pairs| then Done else Continue(Exec(n, None))
  {
    hide Step;
    if n > 0 {
      MSetSteps(pairs, n - 1, s);
      MSetStep(pairs, n - 1, s);
    }
  }

  lemma MSetStep(pairs: seq<Bytes>, n: nat, s: Store)
    requires 2 * n + 1 < |pairs| && |pairs| % 2 == 0
    ensures var (t, o) := Step(MSet(pairs), Exec(n, None), SetPairs(s, pairs[..2 * n]));
            && t == SetPairs(s, pairs[..2 * n + 2])
            && o == if 2 * n + 2 == |pairs| then Done else Continue(Exec(n + 1, None))
  {
    SetPairsSnoc(s, pairs, n);
  }

  lemma RenameSteps(src: Bytes, dst: Bytes, s: Store)
    ensures var c := Rename(src, dst);
            && After(c, 3, s).1 == (if Apply(c, s).Some? then Done else Refused)
            && After(c, 3, s).0 == (if Apply(c, s).Some? then Apply(c, s).value else s)
  {
    var c := Rename(src, dst);
    assert After(c, 1, s) == Step(c, START, s);
    if src in s && src != dst {
      var x := Exec(1, Some(s[src]));
      assert After(c, 1, s) == (s, Continue(x)) by { SameStore(s, After(c, 1, s).0); }
      assert After(c, 2, s) == Step(c, x, s);
      assert After(c, 3, s).0 == (s - {src})[dst := s[src]];
    } else {
      assert After(c, 3, s) == After(c, 2, s);
    }
  }

  /** Running a command step by step gives the command's meaning; a refused command leaves the
      keyspace as it was. */
  lemma RunIsApply(f: Frame, s: Store)
    requires CommandOf(f).Some?
    ensures var c := CommandOf(f).value;
            && After(c, StepCount(c), s).1 == (if Apply(c, s).Some? then Done else Refused)
            && Dispatch(f, s) == (if Apply(c, s).Some? then Apply(c, s).value else s)
  {
    hide CommandOf, Step, Increment;
    var c := CommandOf(f).value;
    match c
    case Del(keys) =>
      DelSteps(keys, |keys|, s);
      assert keys[..|keys|] == keys;
    case MSet(pairs) =>
      MSetSteps(pairs, |pairs| / 2, s);
      assert pairs[..2 * (|pairs| / 2)] == pairs;
    case Set(k, v) => SetStep(k, v, s);
    case Rename(src, dst) => RenameSteps(src, dst, s);
    case Append(k, v) => AppendSteps(k, v, s);
    case Incr(k) => IncrSteps(k, s);
  }

  lemma SetStep(k: Bytes, v: Bytes, s: Store)
    ensures After(Set(k, v), 1, s) == (s[k := v], Done)
  {
    assert After(Set(k, v), 1, s) == Step(Set(k, v), START, s);
  }

  lemma AppendSteps(k: Bytes, v: Bytes, s: Store)
    ensures After(Append(k, v), 2, s) == (Apply(Append(k, v), s).value, Done)
  {
    assert After(Append(k, v), 1, s) == Step(Append(k, v), START, s);
    if k !in s {
      assert s - {k} == s;
    }
  }

  lemma IncrSteps(k: Bytes, s: Store)
    ensures var c := Incr(k);
            && After(c, 2, s).1 == (if Apply(c, s).Some? then Done else Refused)
            && After(c, 2, s).0 == (if Apply(c, s).Some? then Apply(c, s).value else s)
  {
    assert After(Incr(k), 1, s) == Step(Incr(k), START, s);
  }

  // ----- locality: a command reads and changes only its own keys -----

  /** `command_keys`: the keys the ordering guards are chosen from. */
  function Keys(c: Command): (r: seq<Bytes>)
  {
    match c
    case Set(k, _) => [k]
    case Append(k, _) => [k]
    case Incr(k) => [k]
    case Del(keys) => keys
    case MSet(pairs) => seq(|pairs| / 2, i requires 0 <= i < |pairs| / 2 => pairs[2 * i])
    case Rename(src, dst) => [src, dst]
  }

  /** The shards a frame's keys live in; none for a frame that is no command. */
  function Shards(h: Hash, f: Frame): (r: set<nat>)
    ensures forall i :: i in r ==> i < SHARD_COUNT
  {
    if CommandOf(f).None? then {} else
    var ks := Keys(CommandOf(f).value);
    set i | 0 <= i < |ks| :: ShardOf(h, ks[i])
  }

  // ----- which guards a frame takes: by the keys its name says it has -----

  /** The arguments that are bulk strings. */
  function BulkData(items: seq<Frame>): (r: seq<Bytes>)
  {
    if items == [] then [] else (if items[0].Bulk? then [items[0].data] else []) + BulkData(items[1..])
  }

  /** `command_keys`: whatever the number of arguments, reads included. */
  function NamedKeys(f: Frame): (r: seq<Bytes>)
  {
    if NameOf(f).None? then [] else Pick(KeySpecOf(NameOf(f).value), BulkData(f.items[1..]))
  }

  lemma {:induction false} BulkDataOf(items: seq<Frame>, args: seq<Bytes>)
    requires |items| == |args| && forall i :: 0 <= i < |items| ==> items[i] == Bulk(args[i])
    ensures BulkData(items) == args
  {
    if items != [] {
      BulkDataOf(items[1..], args[1..]);
      assert args == [args[0]] + args[1..];
    }
  }

  lemma SixSpecs()
    ensures KeySpecOf("SET") == FirstArg && KeySpecOf("APPEND") == FirstArg && KeySpecOf("INCR") == FirstArg
    ensures KeySpecOf("DEL") == AllArgs && KeySpecOf("RENAME") == AllArgs && KeySpecOf("MSET") == EveryOther
  {
  }

  /** Every key a command touches is among the keys its name gives it. */
  lemma KeysAreNamed(f: Frame, i: nat)
    requires CommandOf(f).Some? && i < |Keys(CommandOf(f).value)|
    ensures Keys(CommandOf(f).value)[i] in NamedKeys(f)
  {
    hide WriteName, KeySpecOf, Text;
    var args, c := Args(f).value, CommandOf(f).value;
    BulkDataOf(f.items[1..], args[1..]);
    SixNames();
    SixSpecs();
    var keys := NamedKeys(f);
    if c.Del? || c.MSet? || c.Rename? {
      assert keys[i] == Keys(c)[i];
    } else {
      assert keys[0] == args[1..][0] == Keys(c)[0];
    }
  }

  /** The shards whose guards a frame takes; they hold the shards it touches. */
  function GuardShards(h: Hash, f: Frame): (r: set<nat>)
    ensures forall i :: i in r ==> i < SHARD_COUNT
    ensures Shards(h, f) <= r
  {
    GuardsCover(h, f);
    var ks := NamedKeys(f);
    set i | 0 <= i < |ks| :: ShardOf(h, ks[i])
  }

  lemma GuardsCover(h: Hash, f: Frame)
    ensures forall s :: s in Shards(h, f) ==> exists j :: 0 <= j < |NamedKeys(f)| && ShardOf(h, NamedKeys(f)[j]) == s
  {
    hide CommandOf, NamedKeys, Keys;
    forall s | s in Shards(h, f) ensures exists j :: 0 <= j < |NamedKeys(f)| && ShardOf(h, NamedKeys(f)[j]) == s {
      var i :| 0 <= i < |Keys(CommandOf(f).value)| && ShardOf(h, Keys(CommandOf(f).value)[i]) == s;
      KeysAreNamed(f, i);
    }
  }

  ghost predicate Agree(h: Hash, shards: set<nat>, s: Store, t: Store)
  {
    forall k :: ShardOf(h, k) in shards ==> Lookup(s, k) == Lookup(t, k)
  }

  /** A step the run really reaches touches a key of the command. */
  predicate Reached(c: Command, x: Exec)
  {
    match c
    case Del(keys) => x.pc < |keys|
    case MSet(pairs) => 2 * x.pc + 1 < |pairs|
    case _ => true
  }

  lemma StepKeyIsOwn(h: Hash, f: Frame, x: Exec)
    requires CommandOf(f).Some? && Reached(CommandOf(f).value, x)
    ensures ShardOf(h, StepKey(CommandOf(f).value, x)) in Shards(h, f)
  {
    var c := CommandOf(f).value;
    var ks := Keys(c);
    var i := match c { case Del(_) => x.pc case MSet(_) => x.pc case Rename(_, _) => if x.pc == 1 then 1 else 0 case _ => 0 };
    assert ks[i] == StepKey(c, x);
  }

  lemma {:induction false} AfterReaches(f: Frame, n: nat, s: Store)
    requires CommandOf(f).Some? && After(CommandOf(f).value, n, s).1.Continue?
    ensures Reached(CommandOf(f).value, After(CommandOf(f).value, n, s).1.x)
  {
    if n > 0 {
      AfterReaches(f, n - 1, s);
    }
  }

  /** Two stores that agree on the command's shards take the step alike there. */
  lemma StepLocal(h: Hash, f: Frame, x: Exec, shards: set<nat>, s: Store, t: Store)
    requires CommandOf(f).Some? && Reached(CommandOf(f).value, x)
    requires Shards(h, f) <= shards && Agree(h, shards, s, t)
    ensures Step(CommandOf(f).value, x, s).1 == Step(CommandOf(f).value, x, t).1
    ensures Agree(h, shards, Step(CommandOf(f).value, x, s).0, Step(CommandOf(f).value, x, t).0)
  {
    StepKeyIsOwn(h, f, x);
  }

  /** A step leaves every other shard alone. */
  lemma StepFrame(h: Hash, f: Frame, x: Exec, others: set<nat>, s: Store)
    requires CommandOf(f).Some? && Reached(CommandOf(f).value, x) && Shards(h, f) !! others
    ensures Agree(h, others, s, Step(CommandOf(f).value, x, s).0)
  {
    StepKeyIsOwn(h, f, x);
  }

  lemma {:induction false} AfterLocal(h: Hash, f: Frame, n: nat, shards: set<nat>, s: Store, t: Store)
    requires CommandOf(f).Some? && Shards(h, f) <= shards && Agree(h, shards, s, t)
    ensures After(CommandOf(f).value, n, s).1 == After(CommandOf(f).value, n, t).1
    ensures Agree(h, shards, After(CommandOf(f).value, n, s).0, After(CommandOf(f).value, n, t).0)
  {
    hide CommandOf, Step, Shards;
    if n > 0 {
      AfterLocal(h, f, n - 1, shards, s, t);
      var (s', o) := After(CommandOf(f).value, n - 1, s);
      if o.Continue? {
        AfterReaches(f, n - 1, s);
        StepLocal(h, f, o.x, shards, s', After(CommandOf(f).value, n - 1, t).0);
      }
    }
  }

  lemma {:induction false} AfterFrame(h: Hash, f: Frame, n: nat, others: set<nat>, s: Store)
    requires CommandOf(f).Some? && Shards(h, f) !! others
    ensures Agree(h, others, s, After(CommandOf(f).value, n, s).0)
  {
    hide CommandOf, Step, Shards;
    if n > 0 {
      AfterFrame(h, f, n - 1, others, s);
      var (s', o) := After(CommandOf(f).value, n - 1, s);
      if o.Continue? {
        AfterReaches(f, n - 1, s);
        StepFrame(h, f, o.x, others, s');
      }
    }
  }

  lemma DispatchLocal(h: Hash, f: Frame, shards: set<nat>, s: Store, t: Store)
    requires Shards(h, f) <= shards && Agree(h, shards, s, t)
    ensures Agree(h, shards, Dispatch(f, s), Dispatch(f, t))
  {
    if CommandOf(f).Some? {
      AfterLocal(h, f, StepCount(CommandOf(f).value), shards, s, t);
    }
  }

  lemma DispatchFrame(h: Hash, f: Frame, others: set<nat>, s: Store)
    requires Shards(h, f) !! others
    ensures Agree(h, others, s, Dispatch(f, s))
  {
    if CommandOf(f).Some? {
      AfterFrame(h, f, StepCount(CommandOf(f).value), others, s);
    }
  }

  lemma FoldNothing(s: Store)
    ensures Fold(s, []) == s
  {
  }

  lemma FoldSnoc(s: Store, fs: seq<Frame>, f: Frame)
    ensures Fold(s, fs + [f]) == Dispatch(f, Fold(s, fs))
  {
    assert (fs + [f])[..|fs|] == fs;
  }

  lemma {:induction false} FoldAppend(s: Store, a: seq<Frame>, b: seq<Frame>)
    ensures Fold(s, a + b) == Fold(Fold(s, a), b)
    decreases |b|
  {
    hide Dispatch;
    if b == [] {
      assert a + b == a;
    } else {
      FoldAppend(s, a, b[..|b| - 1]);
      assert (a + b)[..|a + b| - 1] == a + b[..|b| - 1];
    }
  }

  /** Two commands on disjoint shards may be logged in either order. */
  lemma Commute(h: Hash, f: Frame, g: Frame, s: Store)
    requires Shards(h, f) !! Shards(h, g)
    ensures Fold(s, [f, g]) == Fold(s, [g, f])
  {
    var a, b := Dispatch(f, s), Dispatch(g, s);
    assert Fold(s, [f, g]) == Dispatch(g, a) by { assert [f, g][..1] == [f]; assert Fold(s, [f]) == a; }
    assert Fold(s, [g, f]) == Dispatch(f, b) by { assert [g, f][..1] == [g]; assert Fold(s, [g]) == b; }
    forall k ensures Lookup(Dispatch(g, a), k) == Lookup(Dispatch(f, b), k) {
      var i := ShardOf(h, k);
      if i !in Shards(h, g) {
        DispatchFrame(h, g, {i}, a);
        DispatchFrame(h, g, {i} + Shards(h, f), s);
        DispatchLocal(h, f, {i} + Shards(h, f), s, b);
      } else {
        DispatchFrame(h, f, {i}, b);
        DispatchFrame(h, f, {i} + Shards(h, g), s);
        DispatchLocal(h, g, {i} + Shards(h, g), s, a);
      }
    }
    SameStore(Dispatch(g, a), Dispatch(f, b));
  }
}
