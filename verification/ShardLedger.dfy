// The byte counter under concurrency. `set` settles it after dropping the lock, `clear` resets it after
// dropping the lock, everyone else settles while holding it, so it lags behind the table.
// crates/engine/src/shard.rs:37-92, 145-148, 185-199, 242-340.
module ShardLedger {
  import opened Bytes
  import opened Values
  import opened Shard

  /** `owed`: atomic additions a thread has still to make, in order. `locked`: it holds the write lock.
      `empties`: a collection its change has emptied, to be removed next. `key`: history, the entry the
      additions are for. `Zeroing`: a `clear` between its two steps; `gone`: history, the bytes it emptied. */
  datatype Thread =
    | Ready
    | Settling(owed: seq<int>, locked: bool, empties: Option<Bytes>, key: Option<Bytes>)
    | Zeroing(gone: nat)

  datatype State = State(table: Table, counter: nat, lock: Option<nat>, threads: seq<Thread>)

  /** Each event is what happens between two points where another thread can come in. */
  datatype Event =
    | Set(c: nat, key: Bytes, e: Entry)
    | Remove(c: nat, key: Bytes)              // del, or an expired entry met by get or with_mut
    | Mutate(c: nat, key: Bytes, value: Value) // with_mut, with_mut_delta with an exact report
    | Sweep(c: nat, now: nat)                  // remove_expired
    | Touch(key: Bytes, e: Entry)              // recency, expire_at, persist
    | Settle(c: nat)
    | RemoveEmptied(c: nat)
    | ClearTable(c: nat)                       // clear: the table first,
    | Zero(c: nat)                             // the counter afterwards

  predicate Starts(s: State, c: nat) { c < |s.threads| && s.threads[c].Ready? && s.lock.None? }

  predicate Enabled(s: State, e: Event)
  {
    match e
    case Set(c, _, _) => Starts(s, c)
    case Remove(c, key) => Starts(s, c) && key in s.table
    case Mutate(c, key, _) => Starts(s, c) && key in s.table
    case Sweep(c, _) => Starts(s, c)
    case Touch(key, e) => s.lock.None? && key in s.table && e.value == s.table[key].value
    case Settle(c) => c < |s.threads| && s.threads[c].Settling? && s.threads[c].owed != []
    case RemoveEmptied(c) =>
      && c < |s.threads| && s.threads[c].Settling? && s.threads[c].owed == []
      && s.threads[c].empties.Some? && s.threads[c].empties.value in s.table
    case ClearTable(c) => Starts(s, c)
    case Zero(c) => c < |s.threads| && s.threads[c].Zeroing?
  }

  function SizeAt(t: Table, key: Bytes): (n: int)
    requires key in t
  {
    EntrySize(key, t[key].value)
  }

  ghost function Survivors(t: Table, now: nat): (r: Table)
  {
    map k | k in t && !Expired(t[k], now) :: t[k]
  }

  /** After a thread's last addition it goes on to remove what it emptied, or lets go. */
  function AfterSettle(t: Thread): (r: Thread)
    requires t.Settling? && t.owed != []
  {
    if |t.owed| == 1 && t.empties.None? then Ready else t.(owed := t.owed[1..])
  }

  ghost function Next(s: State, e: Event): (t: State)
    requires Enabled(s, e)
  {
    match e
    case Set(c, key, entry) =>
      var owed := (if key in s.table then [-SizeAt(s.table, key)] else []) + [EntrySize(key, entry.value) as int];
      s.(table := s.table[key := entry], threads := s.threads[c := Settling(owed, false, None, Some(key))])
    case Remove(c, key) =>
      s.(table := s.table - {key}, lock := Some(c), threads := s.threads[c := Settling([-SizeAt(s.table, key)], true, None, None)])
    case Mutate(c, key, value) =>
      var delta := ApproxSize(value) - ApproxSize(s.table[key].value);
      s.(table := s.table[key := s.table[key].(value := value)], lock := Some(c),
         threads := s.threads[c := Settling([delta], true, if EmptyCollection(value) then Some(key) else None, Some(key))])
    case Sweep(c, now) =>
      var kept := Survivors(s.table, now);
      s.(table := kept, lock := Some(c), threads := s.threads[c := Settling([Total(kept) - Total(s.table)], true, None, None)])
    case Touch(key, entry) => s.(table := s.table[key := entry])
    case Settle(c) =>
      var t := s.threads[c];
      s.(counter := Wrap(s.counter + t.owed[0]), threads := s.threads[c := AfterSettle(t)],
         lock := if t.locked && AfterSettle(t).Ready? then None else s.lock)
    case RemoveEmptied(c) =>
      var key := s.threads[c].empties.value;
      s.(table := s.table - {key}, threads := s.threads[c := Settling([-SizeAt(s.table, key)], true, None, None)])
    case ClearTable(c) => s.(table := map[], threads := s.threads[c := Zeroing(Total(s.table))])
    case Zero(c) => s.(counter := 0, threads := s.threads[c := Ready])
  }

  predicate Init(s: State)
  {
    s.table == map[] && s.counter == 0 && s.lock.None? && forall c :: 0 <= c < |s.threads| ==> s.threads[c].Ready?
  }

  ghost function Run(s: State, es: seq<Event>): (r: Option<State>)
  {
    if es == [] then Some(s)
    else match Run(s, es[..|es| - 1])
      case None => None
      case Some(t) => if Enabled(t, es[|es| - 1]) then Some(Next(t, es[|es| - 1])) else None
  }

  // ----- the ledger -----

  function Sum(xs: seq<int>): (n: int)
  {
    if xs == [] then 0 else xs[0] + Sum(xs[1..])
  }

  function OwedBy(t: Thread): (n: int)
  {
    match t
    case Ready => 0
    case Settling(owed, _, _, _) => Sum(owed)
    case Zeroing(gone) => 0 - gone
  }

  function Outstanding(ts: seq<Thread>): (n: int)
  {
    if ts == [] then 0 else Outstanding(ts[..|ts| - 1]) + OwedBy(ts[|ts| - 1])
  }

  lemma {:induction false} OutstandingUpdate(ts: seq<Thread>, c: nat, t: Thread)
    requires c < |ts|
    ensures Outstanding(ts[c := t]) == Outstanding(ts) - OwedBy(ts[c]) + OwedBy(t)
  {
    hide OwedBy;
    var n := |ts| - 1;
    if c == n {
      assert ts[c := t][..n] == ts[..n];
    } else {
      OutstandingUpdate(ts[..n], c, t);
      assert ts[c := t][..n] == ts[..n][c := t];
    }
  }

  /** How far the counter is from what the entries account for less what is still to be settled. */
  ghost function Off(s: State): (n: nat) { Wrap(s.counter - Total(s.table) + Outstanding(s.threads)) }

  predicate HoldsEmptied(t: Table, key: Bytes) { key in t && EmptyCollection(t[key].value) }

  /** Only the lock's holder has an emptied collection to remove, and it is still there, and empty. */
  predicate LockOk(s: State)
  {
    && (s.lock.Some? ==> s.lock.value < |s.threads|)
    && forall c :: 0 <= c < |s.threads| && s.threads[c].Settling? ==>
         && (s.threads[c].locked <==> s.lock == Some(c))
         && (s.threads[c].owed == [] ==> s.threads[c].empties.Some?)
         && (s.threads[c].empties.Some? ==>
               s.threads[c].locked && HoldsEmptied(s.table, s.threads[c].empties.value) && s.threads[c].key == s.threads[c].empties)
  }

  lemma SumOne(x: int)
    ensures Sum([x]) == x
  {
    assert [x][1..] == [];
  }

  /** The thread's own debt is exactly the change it made to the table. */
  lemma StartOwes(s: State, t: State, c: nat, owes: int)
    requires c < |s.threads| && s.threads[c].Ready? && t.counter == s.counter
    requires |t.threads| == |s.threads| && t.threads == s.threads[c := t.threads[c]] && OwedBy(t.threads[c]) == owes
    requires Total(t.table) == Total(s.table) + owes
    ensures Off(t) == Off(s)
  {
    OutstandingUpdate(s.threads, c, t.threads[c]);
  }

  lemma SetOwes(s: State, c: nat, key: Bytes, e: Entry)
    requires Enabled(s, Event.Set(c, key, e))
    ensures Off(Next(s, Event.Set(c, key, e))) == Off(s)
  {
    hide Total, EntrySize;
    var t := Next(s, Event.Set(c, key, e));
    var size: int := EntrySize(key, e.value);
    TotalWith(s.table, key, e);
    SumOne(size);
    if key in s.table {
      TotalWithout(s.table, key);
      var before := SizeAt(s.table, key);
      assert ([-before] + [size])[1..] == [size];
      assert Sum([-before] + [size]) == -before + size;
      StartOwes(s, t, c, size - before);
    } else {
      TotalAbsent(s.table, key);
      assert [] + [size] == [size];
      StartOwes(s, t, c, size);
    }
  }

  lemma LockedOwes(s: State, e: Event)
    requires Enabled(s, e) && (e.Remove? || e.Mutate? || e.Sweep?)
    ensures Off(Next(s, e)) == Off(s)
  {
    hide Total;
    var t := Next(s, e);
    var owes := t.threads[e.c].owed[0];
    SumOne(owes);
    if e.Remove? {
      TotalWithout(s.table, e.key);
    } else if e.Mutate? {
      TotalWithout(s.table, e.key);
      TotalWith(s.table, e.key, s.table[e.key].(value := e.value));
    }
    StartOwes(s, t, e.c, owes);
  }

  lemma SettledOwes(t: Thread)
    requires t.Settling? && t.owed != []
    ensures OwedBy(AfterSettle(t)) == OwedBy(t) - t.owed[0]
  {
    if |t.owed| == 1 {
      assert t.owed == [t.owed[0]] && t.owed[1..] == [];
      SumOne(t.owed[0]);
    }
  }

  lemma SettlePays(s: State, c: nat)
    requires Enabled(s, Settle(c))
    ensures Off(Next(s, Settle(c))) == Off(s)
  {
    hide Total;
    var t := s.threads[c];
    OutstandingUpdate(s.threads, c, AfterSettle(t));
    SettledOwes(t);
    var rest := Outstanding(s.threads) - t.owed[0] - Total(s.table);
    WrapStep(s.counter + t.owed[0], rest);
  }

  lemma OthersPay(s: State, e: Event)
    requires Enabled(s, e) && (e.Touch? || e.RemoveEmptied? || e.ClearTable?)
    ensures Off(Next(s, e)) == Off(s)
  {
    hide Total;
    if e.Touch? {
      TotalWithout(s.table, e.key);
      TotalWith(s.table, e.key, e.e);
    } else if e.RemoveEmptied? {
      var key := s.threads[e.c].empties.value;
      TotalWithout(s.table, key);
      SumOne(-SizeAt(s.table, key));
      OutstandingUpdate(s.threads, e.c, Settling([-SizeAt(s.table, key)], true, None, None));
      assert Sum(s.threads[e.c].owed) == 0;
    } else {
      OutstandingUpdate(s.threads, e.c, Zeroing(Total(s.table)));
      EmptyTotal();
    }
  }

  /** Every step but the second one of `clear` leaves the counter exactly as right or wrong as it was. */
  lemma StepKeepsOff(s: State, e: Event)
    requires Enabled(s, e) && !e.Zero?
    ensures Off(Next(s, e)) == Off(s)
  {
    hide Next, Off;
    match e
    case Set(c, key, entry) => SetOwes(s, c, key, entry);
    case Settle(c) => SettlePays(s, c);
    case Remove(_, _) => LockedOwes(s, e);
    case Mutate(_, _, _) => LockedOwes(s, e);
    case Sweep(_, _) => LockedOwes(s, e);
    case _ => OthersPay(s, e);
  }

  lemma EmptyTotal()
    ensures Total(map[]) == 0
  {
  }

  lemma {:induction false} AllReady(ts: seq<Thread>)
    requires forall c :: 0 <= c < |ts| ==> ts[c].Ready?
    ensures Outstanding(ts) == 0
  {
    if ts != [] {
      AllReady(ts[..|ts| - 1]);
    }
  }

  lemma LockStep(s: State, e: Event)
    requires Enabled(s, e) && LockOk(s)
    ensures LockOk(Next(s, e))
  {
    hide Total, Outstanding, EntrySize, ApproxSize;
  }

  lemma {:induction false} LocksHold(s0: State, es: seq<Event>)
    requires Init(s0) && Run(s0, es).Some?
    ensures LockOk(Run(s0, es).value)
  {
    hide Next, LockOk, Total;
    if es == [] {
      assert LockOk(s0) by { InitLocks(s0); }
    } else {
      LocksHold(s0, es[..|es| - 1]);
      LockStep(Run(s0, es[..|es| - 1]).value, es[|es| - 1]);
    }
  }

  lemma InitLocks(s0: State)
    requires Init(s0)
    ensures LockOk(s0) && Off(s0) == 0
  {
    AllReady(s0.threads);
    EmptyTotal();
  }

  // ----- when the counter is right -----

  lemma {:induction false} OffKept(s: State, es: seq<Event>)
    requires Run(s, es).Some? && forall i :: 0 <= i < |es| ==> !es[i].Zero?
    ensures Off(Run(s, es).value) == Off(s)
  {
    hide Next, Off;
    if es != [] {
      OffKept(s, es[..|es| - 1]);
      StepKeepsOff(Run(s, es[..|es| - 1]).value, es[|es| - 1]);
    }
  }

  /** Nobody but the `clear` is on the shard, and it is still empty. */
  predicate Alone(s: State, c: nat)
  {
    s.table == map[] && forall d :: 0 <= d < |s.threads| && d != c ==> s.threads[d].Ready?
  }

  /** Every `clear` of the run was alone when it reset the counter. */
  ghost predicate ClearsAlone(s: State, es: seq<Event>)
  {
    es == [] ||
    (ClearsAlone(s, es[..|es| - 1])
     && (es[|es| - 1].Zero? ==> Run(s, es[..|es| - 1]).Some? && Alone(Run(s, es[..|es| - 1]).value, es[|es| - 1].c)))
  }

  lemma AloneIsExact(s: State, c: nat)
    requires Enabled(s, Zero(c)) && Alone(s, c)
    ensures Off(Next(s, Zero(c))) == 0
  {
    AllReady(Next(s, Zero(c)).threads);
    EmptyTotal();
  }

  lemma {:induction false} NeverOff(s0: State, es: seq<Event>)
    requires Init(s0) && Run(s0, es).Some? && ClearsAlone(s0, es)
    ensures Off(Run(s0, es).value) == 0
  {
    hide Next, Off, Alone;
    if es == [] {
      InitLocks(s0);
    } else {
      var s, e := Run(s0, es[..|es| - 1]).value, es[|es| - 1];
      NeverOff(s0, es[..|es| - 1]);
      if e.Zero? {
        AloneIsExact(s, e.c);
      } else {
        StepKeepsOff(s, e);
      }
    }
  }

  /** In every interleaving of every operation in which each `clear` was alone, at every moment: the
      counter is what the entries account for, less what is still to be settled. */
  lemma LedgerHolds(s0: State, es: seq<Event>)
    requires Init(s0) && Run(s0, es).Some? && ClearsAlone(s0, es)
    ensures var s := Run(s0, es).value;
            s.counter == Wrap(Total(s.table) - Outstanding(s.threads))
  {
    hide Run, Total, Outstanding, ClearsAlone;
    NeverOff(s0, es);
    var s := Run(s0, es).value;
    CounterSmall(s0, es);
    SolveOff(s.counter, Total(s.table) - Outstanding(s.threads));
  }

  /** In between it is the table's bytes less the debts, unless that is below zero: then it reads as a
      number near 2^64. `CalmNeverWraps` says what keeps it from that. */
  lemma ReadsHugeIff(s0: State, es: seq<Event>)
    requires Init(s0) && Run(s0, es).Some? && ClearsAlone(s0, es)
    requires 0 - WORD <= Total(Run(s0, es).value.table) - Outstanding(Run(s0, es).value.threads) < WORD
    ensures var s := Run(s0, es).value;
            var exact := Total(s.table) - Outstanding(s.threads);
            && (s.counter == exact <==> Outstanding(s.threads) <= Total(s.table))
            && (Outstanding(s.threads) > Total(s.table) ==> s.counter == WORD + exact)
  {
    hide Run, Total, Outstanding, ClearsAlone;
    LedgerHolds(s0, es);
  }

  lemma SolveOff(counter: nat, exact: int)
    requires counter < WORD
    ensures Wrap(counter - exact) == 0 <==> counter == Wrap(exact)
  {
    WrapStep(exact, 0);
    if Wrap(counter - exact) == 0 {
      WrapStep(counter - exact, exact);
    } else if counter == Wrap(exact) {
      WrapStep(exact, -exact);
    }
  }

  lemma {:induction false} CounterSmall(s0: State, es: seq<Event>)
    requires Init(s0) && Run(s0, es).Some?
    ensures Run(s0, es).value.counter < WORD
  {
    hide Total;
    if es != [] {
      CounterSmall(s0, es[..|es| - 1]);
    }
  }

  lemma {:induction false} RunPrefix(s: State, es: seq<Event>, n: nat)
    requires Run(s, es).Some? && n <= |es|
    ensures Run(s, es[..n]).Some? && Run(s, es) == Run(Run(s, es[..n]).value, es[n..])
    decreases |es|
  {
    hide Next, Enabled;
    if n == |es| {
      assert es[..n] == es && es[n..] == [];
    } else {
      RunPrefix(s, es[..|es| - 1], n);
      assert es[..|es| - 1][..n] == es[..n] && es[n..][..|es[n..]| - 1] == es[..|es| - 1][n..];
    }
  }

  predicate AtRest(s: State) { forall c :: 0 <= c < |s.threads| ==> s.threads[c].Ready? }

  /** At rest, when each `clear` was alone, the counter is exact. */
  lemma ExactAtRest(s0: State, es: seq<Event>)
    requires Init(s0) && Run(s0, es).Some? && AtRest(Run(s0, es).value) && ClearsAlone(s0, es)
    ensures Run(s0, es).value.counter == Wrap(Total(Run(s0, es).value.table))
  {
    hide Run, Total, ClearsAlone;
    LedgerHolds(s0, es);
    AllReady(Run(s0, es).value.threads);
  }

  /** In any run the last `clear` decides for ever: at rest the counter is exact if and only if, when that
      `clear` reset it, what the other threads had put in the table since was what they had still to add. */
  lemma ExactAtRestIff(s0: State, es: seq<Event>, n: nat)
    requires Init(s0) && Run(s0, es).Some? && AtRest(Run(s0, es).value)
    requires n < |es| && es[n].Zero? && forall i :: n < i < |es| ==> !es[i].Zero?
    ensures Run(s0, es[..n + 1]).Some?
    ensures var s, z := Run(s0, es).value, Run(s0, es[..n + 1]).value;
            s.counter == Wrap(Total(s.table)) <==> Wrap(Total(z.table)) == Wrap(Outstanding(z.threads))
  {
    hide Run, Total, Outstanding;
    RunPrefix(s0, es, n + 1);
    var s, z := Run(s0, es).value, Run(s0, es[..n + 1]).value;
    OffKept(z, es[n + 1..]);
    AllReady(s.threads);
    CounterSmall(s0, es);
    SolveOff(s.counter, Total(s.table));
    JustZeroed(s0, es[..n + 1]);
    SolveOff(Wrap(Outstanding(z.threads)), Total(z.table));
    WrapStep(Outstanding(z.threads), -(Total(z.table) as int));
  }

  lemma JustZeroed(s0: State, es: seq<Event>)
    requires Run(s0, es).Some? && es != [] && es[|es| - 1].Zero?
    ensures Run(s0, es).value.counter == 0
  {
    hide Total;
  }

  // ----- when it reads as a number near 2^64 -----

  predicate Owes(t: Thread, key: Bytes) { t.Settling? && t.key == Some(key) }

  predicate Unsettled(s: State, key: Bytes)
  {
    exists d :: 0 <= d < |s.threads| && Owes(s.threads[d], key)
  }

  /** The step takes away or replaces no entry that somebody has still to settle for, and a `clear` is
      alone from its first step to its second. The per-shard guard of crates/server/src/aof.rs:346-400
      keeps client writes to this: another one on the shard starts only when the last has settled.
      Eviction deletes in every shard without that guard. */
  predicate Calm(s: State, e: Event)
  {
    && ((exists d :: 0 <= d < |s.threads| && s.threads[d].Zeroing?) ==> e.Zero?)
    && match e
       case Set(_, key, _) => !Unsettled(s, key)
       case Remove(_, key) => !Unsettled(s, key)
       case Mutate(_, key, _) => !Unsettled(s, key)
       case Sweep(_, now) => forall key :: key in s.table && Unsettled(s, key) ==> !Expired(s.table[key], now)
       case ClearTable(_) => AtRest(s)
       case _ => true
  }

  ghost predicate CalmRun(s: State, es: seq<Event>)
  {
    es == [] || (CalmRun(s, es[..|es| - 1]) && Run(s, es[..|es| - 1]).Some? && Calm(Run(s, es[..|es| - 1]).value, es[|es| - 1]))
  }

  /** What a thread has still to add, from any point of its additions on, is no more than its entry. */
  predicate Covered(t: Thread, table: Table)
  {
    t.Settling? ==>
      && (t.key.Some? ==> t.key.value in table)
      && forall i :: 0 <= i <= |t.owed| ==> Sum(t.owed[i..]) <= if t.key.Some? then SizeAt(table, t.key.value) else 0
  }

  predicate NoDebt(s: State)
  {
    && (forall c :: 0 <= c < |s.threads| ==> Covered(s.threads[c], s.table))
    && (forall c, d :: 0 <= c < d < |s.threads| && s.threads[c].Settling? && s.threads[d].Settling? && s.threads[c].key.Some? ==>
          s.threads[c].key != s.threads[d].key)
  }

  lemma {:induction false} DebtsCovered(ts: seq<Thread>, table: Table)
    requires forall c :: 0 <= c < |ts| ==> Covered(ts[c], table)
    requires forall c, d :: 0 <= c < d < |ts| && ts[c].Settling? && ts[d].Settling? && ts[c].key.Some? ==> ts[c].key != ts[d].key
    ensures Outstanding(ts) <= Total(table)
  {
    hide Total, EntrySize;
    if ts != [] {
      var front, t := ts[..|ts| - 1], ts[|ts| - 1];
      CoveredNow(t, table);
      if t.Settling? && t.key.Some? {
        var key := t.key.value;
        forall c | 0 <= c < |front| ensures Covered(front[c], table - {key}) {
          assert Covered(ts[c], table);
        }
        DebtsCovered(front, table - {key});
        TotalWithout(table, key);
      } else {
        DebtsCovered(front, table);
      }
    }
  }

  lemma CoveredNow(t: Thread, table: Table)
    requires Covered(t, table)
    ensures OwedBy(t) <= if t.Settling? && t.key.Some? then SizeAt(table, t.key.value) else 0
  {
    if t.Settling? {
      assert t.owed[0..] == t.owed;
    }
  }

  /** A `clear` under way is alone on an empty shard. */
  predicate ZeroOk(s: State)
  {
    forall c :: 0 <= c < |s.threads| && s.threads[c].Zeroing? ==>
      s.table == map[] && forall d :: 0 <= d < |s.threads| && d != c ==> s.threads[d].Ready?
  }

  /** One thread moves on, and every other thread's entry keeps its value. */
  lemma OneMoves(s: State, t: State, c: nat)
    requires NoDebt(s) && c < |s.threads| == |t.threads| && t.threads == s.threads[c := t.threads[c]]
    requires Covered(t.threads[c], t.table)
    requires forall d, k :: 0 <= d < |s.threads| && d != c && Owes(s.threads[d], k) && k in s.table ==>
      k in t.table && t.table[k].value == s.table[k].value
    requires t.threads[c].Settling? && t.threads[c].key.Some? ==>
      forall d :: 0 <= d < |s.threads| && d != c ==> !Owes(s.threads[d], t.threads[c].key.value)
    ensures NoDebt(t)
  {
    hide EntrySize, Sum;
    forall d | 0 <= d < |t.threads| ensures Covered(t.threads[d], t.table) {
      if d != c && s.threads[d].Settling? && s.threads[d].key.Some? {
        assert Covered(s.threads[d], s.table) && Owes(s.threads[d], s.threads[d].key.value);
      }
    }
    forall a, b | 0 <= a < b < |t.threads| && t.threads[a].Settling? && t.threads[b].Settling? && t.threads[a].key.Some?
      ensures t.threads[a].key != t.threads[b].key
    {
      assert b == c && t.threads[c].key.Some? ==> !Owes(s.threads[a], t.threads[c].key.value);
    }
  }

  lemma OneCovered(x: int, locked: bool, empties: Option<Bytes>, key: Option<Bytes>, table: Table)
    requires key.Some? ==> key.value in table
    requires x <= (if key.Some? then SizeAt(table, key.value) else 0)
    ensures Covered(Settling([x], locked, empties, key), table)
  {
    hide EntrySize;
    SumOne(x);
    assert [x][0..] == [x] && [x][1..] == [];
    assert key.Some? ==> SizeAt(table, key.value) > 0;
  }

  lemma CalmSet(s: State, c: nat, key: Bytes, e: Entry)
    requires NoDebt(s) && Enabled(s, Event.Set(c, key, e)) && Calm(s, Event.Set(c, key, e))
    ensures NoDebt(Next(s, Event.Set(c, key, e)))
  {
    hide NoDebt, EntrySize;
    var t := Next(s, Event.Set(c, key, e));
    var size: int := EntrySize(key, e.value);
    assert Covered(t.threads[c], t.table) by {
      SumOne(size);
      var owed := t.threads[c].owed;
      if key in s.table {
        var two := [-SizeAt(s.table, key), size];
        assert owed == two && two[0..] == two && two[1..] == [size] && two[2..] == [] && Sum(two) == two[0] + Sum(two[1..]);
      } else {
        assert owed == [size] && owed[0..] == owed && owed[1..] == [];
      }
    }
    OneMoves(s, t, c);
  }

  lemma CalmLocked(s: State, e: Event)
    requires NoDebt(s) && Enabled(s, e) && Calm(s, e) && (e.Remove? || e.Mutate? || e.Sweep?)
    ensures NoDebt(Next(s, e))
  {
    hide NoDebt, Total, EntrySize;
    var t := Next(s, e);
    if e.Mutate? {
      SizeParts(e.key, e.value);
      OneCovered(t.threads[e.c].owed[0], true, t.threads[e.c].empties, Some(e.key), t.table);
    } else {
      if e.Sweep? {
        SurvivorsSmaller(s.table, t.table);
      }
      OneCovered(t.threads[e.c].owed[0], true, None, None, t.table);
    }
    OneMoves(s, t, e.c);
  }

  lemma SizeParts(key: Bytes, value: Value)
    ensures ApproxSize(value) <= EntrySize(key, value)
  {
  }

  lemma {:induction false} SurvivorsSmaller(t: Table, kept: Table)
    requires kept.Keys <= t.Keys && forall k :: k in kept ==> kept[k] == t[k]
    ensures Total(kept) <= Total(t)
    decreases |kept|
  {
    hide EntrySize, Total;
    if kept == map[] {
      EmptyTotal();
    } else {
      var k :| k in kept;
      SmallerTable(kept, k);
      TotalWithout(kept, k);
      TotalWithout(t, k);
      SurvivorsSmaller(t - {k}, kept - {k});
    }
  }

  lemma CalmSettle(s: State, c: nat)
    requires NoDebt(s) && Enabled(s, Settle(c))
    ensures NoDebt(Next(s, Settle(c)))
  {
    hide EntrySize, Sum, Total;
    var t, owed := Next(s, Settle(c)), s.threads[c].owed;
    assert Covered(s.threads[c], s.table);
    if t.threads[c].Settling? {
      forall i | 0 <= i <= |owed[1..]| ensures owed[1..][i..] == owed[i + 1..] {
      }
      assert Covered(t.threads[c], t.table);
      forall d | 0 <= d < |s.threads| && d != c && t.threads[c].key.Some? ensures !Owes(s.threads[d], t.threads[c].key.value) {
      }
    }
    OneMoves(s, t, c);
  }

  lemma CalmOthers(s: State, e: Event)
    requires NoDebt(s) && LockOk(s) && Enabled(s, e) && (e.Touch? || e.RemoveEmptied?)
    ensures NoDebt(Next(s, e))
  {
    hide EntrySize, Total, Sum;
    var t := Next(s, e);
    if e.RemoveEmptied? {
      OneCovered(-SizeAt(s.table, s.threads[e.c].empties.value), true, None, None, t.table);
      OneMoves(s, t, e.c);
    } else {
      forall c | 0 <= c < |t.threads| ensures Covered(t.threads[c], t.table) {
        assert Covered(s.threads[c], s.table);
      }
    }
  }

  lemma ClearAlone(s: State, e: Event)
    requires NoDebt(s) && ZeroOk(s) && Off(s) == 0 && Enabled(s, e) && Calm(s, e) && (e.ClearTable? || e.Zero?)
    ensures NoDebt(Next(s, e)) && Off(Next(s, e)) == 0
  {
    hide Total, EntrySize;
    var t := Next(s, e);
    if e.Zero? {
      AllReady(t.threads);
      EmptyTotal();
    } else {
      StepKeepsOff(s, e);
    }
  }

  lemma ZeroStep(s: State, e: Event)
    requires ZeroOk(s) && Enabled(s, e) && Calm(s, e)
    ensures ZeroOk(Next(s, e))
  {
    hide Total, EntrySize;
  }

  lemma {:induction false} CalmHolds(s0: State, es: seq<Event>)
    requires Init(s0) && Run(s0, es).Some? && CalmRun(s0, es)
    ensures var s := Run(s0, es).value;
            NoDebt(s) && ZeroOk(s) && Off(s) == 0
  {
    hide Next, Off, Calm, NoDebt, ZeroOk, LockOk;
    if es == [] {
      InitLocks(s0);
      assert NoDebt(s0) && ZeroOk(s0) by { InitCalm(s0); }
    } else {
      var s, e := Run(s0, es[..|es| - 1]).value, es[|es| - 1];
      CalmHolds(s0, es[..|es| - 1]);
      LocksHold(s0, es[..|es| - 1]);
      ZeroStep(s, e);
      match e {
        case Set(c, key, entry) => CalmSet(s, c, key, entry);
        case Settle(c) => CalmSettle(s, c);
        case Touch(_, _) => CalmOthers(s, e);
        case RemoveEmptied(_) => CalmOthers(s, e);
        case ClearTable(_) => ClearAlone(s, e);
        case Zero(_) => ClearAlone(s, e);
        case _ => CalmLocked(s, e);
      }
      if !e.Zero? {
        StepKeepsOff(s, e);
      }
    }
  }

  lemma InitCalm(s0: State)
    requires Init(s0)
    ensures NoDebt(s0) && ZeroOk(s0)
  {
  }

  /** While every step is calm, the counter is at every moment exactly the table's bytes less what is still
      to be added, and that is never below zero: it cannot read as a number near 2^64. */
  lemma CalmNeverWraps(s0: State, es: seq<Event>)
    requires Init(s0) && Run(s0, es).Some? && CalmRun(s0, es)
    ensures var s := Run(s0, es).value;
            && Outstanding(s.threads) <= Total(s.table)
            && s.counter == Wrap(Total(s.table) - Outstanding(s.threads))
            && (Total(s.table) - Outstanding(s.threads) < WORD ==> s.counter == Total(s.table) - Outstanding(s.threads))
  {
    hide Run, Total, Outstanding, CalmRun;
    var s := Run(s0, es).value;
    CalmHolds(s0, es);
    DebtsCovered(s.threads, s.table);
    CounterSmall(s0, es);
    SolveOff(s.counter, Total(s.table) - Outstanding(s.threads));
  }

  // ----- the runs that are not calm -----

  function TwoThreads(): (s: State) { State(map[], 0, None, [Ready, Ready]) }

  /** Three events in a row. */
  lemma ThreeEvents(s0: State, x: Event, y: Event, z: Event)
    requires Enabled(s0, x) && Enabled(Next(s0, x), y) && Enabled(Next(Next(s0, x), y), z)
    ensures Run(s0, [x, y, z]) == Some(Next(Next(Next(s0, x), y), z))
  {
    hide Next, Enabled;
    var es := [x, y, z];
    assert es[..2] == [x, y] && [x, y][..1] == [x] && [x][..0] == [];
    assert Run(s0, []) == Some(s0);
    assert Run(s0, [x]) == Some(Next(s0, x));
    assert Run(s0, [x, y]) == Some(Next(Next(s0, x), y));
  }

  /** Two concurrent `set`s of one new key: the second settles the first one's bytes away before the
      first has added them, and the counter of a nearly empty shard reads near 2^64. */
  lemma TransientWrap(key: Bytes, a: Entry, b: Entry)
    requires EntrySize(key, a.value) < 0x1_0000 && EntrySize(key, b.value) < 0x1_0000
    ensures var es := [Event.Set(0, key, a), Event.Set(1, key, b), Settle(1)];
            && Init(TwoThreads()) && Run(TwoThreads(), es).Some?
            && Total(Run(TwoThreads(), es).value.table) < 0x1_0000
            && Run(TwoThreads(), es).value.counter == 0x1_0000_0000_0000_0000 - EntrySize(key, a.value)
  {
    hide Total, EntrySize;
    var s0, x, y, z := TwoThreads(), Event.Set(0, key, a), Event.Set(1, key, b), Settle(1);
    var s1 := Next(s0, x);
    var s2 := Next(s1, y);
    assert s2.threads[1].owed[0] == -SizeAt(s1.table, key) && SizeAt(s1.table, key) == EntrySize(key, a.value);
    ThreeEvents(s0, x, y, z);
    TotalWith(s1.table, key, b);
    assert s1.table - {key} == map[];
    EmptyTotal();
  }

  /** A client's `set`, and an eviction that deletes the new key before the client has added its bytes:
      the same reading, on an empty shard. */
  lemma EvictionWrap(key: Bytes, a: Entry)
    requires EntrySize(key, a.value) < 0x1_0000
    ensures var es := [Event.Set(0, key, a), Event.Remove(1, key), Settle(1)];
            && Init(TwoThreads()) && Run(TwoThreads(), es).Some?
            && Run(TwoThreads(), es).value.table == map[]
            && Run(TwoThreads(), es).value.counter == 0x1_0000_0000_0000_0000 - EntrySize(key, a.value)
  {
    hide Total, EntrySize;
    var s0, x, y, z := TwoThreads(), Event.Set(0, key, a), Event.Remove(1, key), Settle(1);
    var s1 := Next(s0, x);
    var s2 := Next(s1, y);
    assert s2.threads[1].owed[0] == -SizeAt(s1.table, key) && SizeAt(s1.table, key) == EntrySize(key, a.value);
    ThreeEvents(s0, x, y, z);
    assert s1.table - {key} == map[];
  }

  /** A client's `set` that has inserted and not settled when a live REPLICAOF clears the shard: the bytes
      are added after the reset, and an empty shard at rest accounts for them for ever. */
  lemma ClearRace(key: Bytes, a: Entry)
    requires EntrySize(key, a.value) < 0x1_0000
    ensures var es := [Event.Set(0, key, a), ClearTable(1), Zero(1), Settle(0)];
            && Init(TwoThreads()) && Run(TwoThreads(), es).Some? && AtRest(Run(TwoThreads(), es).value)
            && Run(TwoThreads(), es).value.table == map[]
            && Run(TwoThreads(), es).value.counter == EntrySize(key, a.value) > 0
  {
    hide Total, EntrySize;
    var s0, x, y, z, w := TwoThreads(), Event.Set(0, key, a), ClearTable(1), Zero(1), Settle(0);
    var s2 := Next(Next(s0, x), y);
    ThreeEvents(s0, x, y, z);
    assert [x, y, z, w][..3] == [x, y, z];
    var s3 := Next(s2, z);
    assert s3.threads[0].owed == [EntrySize(key, a.value) as int];
    assert Run(s0, [x, y, z, w]) == Some(Next(s3, w));
  }
}
