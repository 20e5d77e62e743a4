// One shard: a locked table and an atomic byte counter. crates/engine/src/shard.rs:25-340.
module Shard {
  import opened Bytes
  import opened Values

  /** The counter is a 64-bit word: `fetch_add` and `fetch_sub` wrap round. */
  const WORD: nat := 0x1_0000_0000_0000_0000

  function Wrap(n: int): (r: nat)
    ensures r < WORD
  {
    n % WORD
  }

  lemma WrapStep(n: int, delta: int)
    ensures Wrap(Wrap(n) + delta) == Wrap(n + delta)
  {
  }

  lemma OneFewer(t: Table, k: Bytes)
    requires k in t
    ensures |t - {k}| == |t| - 1 && (t - {k}).Keys == t.Keys - {k}
  {
    assert (t - {k}).Keys == t.Keys - {k};
    assert |t.Keys| == |t| && |(t - {k}).Keys| == |t - {k}|;
  }

  /** `retain`: the entries still alive, and the bytes of the others. */
  method Retain(t: Table, now: nat) returns (kept: Table, removedBytes: int, removed: nat)
    ensures kept == map k | k in t && !Expired(t[k], now) :: t[k]
    ensures Total(t) == Total(kept) + removedBytes && |kept| + removed == |t|
  {
    hide Total, EntrySize, Expired;
    var pending := t.Keys;
    kept, removedBytes, removed := t, 0, 0;
    while pending != {}
      invariant pending <= kept.Keys <= t.Keys
      invariant forall k :: k in kept ==> kept[k] == t[k]
      invariant forall k :: k in t && k !in pending ==> (k in kept <==> !Expired(t[k], now))
      invariant Total(t) == Total(kept) + removedBytes && |kept| + removed == |t|
      decreases pending
    {
      var k :| k in pending;
      pending := pending - {k};
      if Expired(kept[k], now) {
        TotalWithout(kept, k);
        OneFewer(kept, k);
        removedBytes, removed := removedBytes + EntrySize(k, kept[k].value), removed + 1;
        kept := kept - {k};
      }
    }
  }

  /** What a mutation does to the visible keys: nothing to a missing one, and a collection it empties
      is gone. */
  function Changed(m: map<Bytes, Value>, key: Bytes, f: Value -> Value): (r: map<Bytes, Value>)
  {
    if key !in m then m else if EmptyCollection(f(m[key])) then m - {key} else m[key := f(m[key])]
  }

  /** The same to the stored entries: an expired one goes, every other key keeps its entry, and the changed
      one keeps its expiry. */
  function Mutated(t: Table, key: Bytes, f: Value -> Value, now: nat, clock: nat): (r: Table)
  {
    if key !in t then t
    else if Expired(t[key], now) || EmptyCollection(f(t[key].value)) then t - {key}
    else t[key := Entry(f(t[key].value), t[key].expiresAt, clock)]
  }

  /** By how much a closure's report misses the change it made. */
  function Misreported(m: map<Bytes, Value>, key: Bytes, f: Value -> (Value, int)): (d: int)
  {
    if key !in m then 0 else f(m[key]).1 - (ApproxSize(f(m[key]).0) - ApproxSize(m[key]))
  }

  /** With nobody else on the shard. */
  class Shard {
    var table: Table
    var bytesUsed: nat

    /** The counter is `d` bytes more than the entries account for. */
    ghost predicate OffBy(d: int)
      reads this
    {
      bytesUsed == Wrap(Total(table) + d)
    }

    ghost predicate Exact()
      reads this
    {
      OffBy(0)
    }

    constructor ()
      ensures table == map[] && Exact()
    {
      table, bytesUsed := map[], 0;
    }

    method FetchAdd(n: int)
      modifies this`bytesUsed
      ensures bytesUsed == Wrap(old(bytesUsed) + n)
    {
      bytesUsed := Wrap(bytesUsed + n);
    }

    /** Drops an entry and its bytes. */
    method Drop(key: Bytes, ghost d: int)
      requires key in table && OffBy(d)
      modifies this
      ensures table == old(table) - {key} && OffBy(d)
    {
      var size: int := EntrySize(key, table[key].value);
      TotalWithout(table, key);
      table := table - {key};
      WrapStep(Total(old(table)) + d, -size);
      FetchAdd(-size);
    }

    /** `get`: an expired entry is removed on the way. */
    method Get(key: Bytes, now: nat, clock: nat) returns (r: Option<Value>)
      requires Exact()
      modifies this
      ensures Exact() && Live(table, now) == old(Live(table, now))
      ensures r == if key in Live(table, now) then Some(Live(table, now)[key]) else None
      ensures key in old(table) && !Expired(old(table)[key], now) ==> table == old(table)[key := old(table)[key].(touched := clock)]
      ensures key in old(table) && Expired(old(table)[key], now) ==> table == old(table) - {key}
      ensures key !in old(table) ==> table == old(table)
    {
      r := None;
      if key in table && !Expired(table[key], now) {
        r := Some(table[key].value);
        TotalWith(table, key, table[key].(touched := clock));
        TotalWithout(table, key);
        table := table[key := table[key].(touched := clock)];
      } else if key in table {
        Drop(key, 0);
      }
    }

    /** `set`. */
    method Set(key: Bytes, value: Value, now: nat, clock: nat)
      requires Exact()
      modifies this
      ensures Exact() && Live(table, now) == old(Live(table, now))[key := value]
      ensures table == old(table)[key := Entry(value, None, clock)]
    {
      hide Total, EntrySize;
      var newSize := EntrySize(key, value);
      var oldSize: Option<int> := if key in table then Some(EntrySize(key, table[key].value)) else None;
      ghost var rest := Total(table - {key});
      if key in table {
        TotalWithout(table, key);
      } else {
        TotalAbsent(table, key);
      }
      TotalWith(table, key, Entry(value, None, clock));
      table := table[key := Entry(value, None, clock)];
      if oldSize.Some? {
        WrapStep(Total(old(table)), -oldSize.value);
        FetchAdd(-oldSize.value);
      }
      assert bytesUsed == Wrap(rest);
      WrapStep(rest, newSize);
      FetchAdd(newSize);
    }

    /** `del`. */
    method Del(key: Bytes, now: nat) returns (existed: bool)
      requires Exact()
      modifies this
      ensures Exact() && table == old(table) - {key} && Live(table, now) == old(Live(table, now)) - {key}
      ensures existed == (key in old(Live(table, now)))
    {
      if key !in table {
        TotalAbsent(table, key);
        return false;
      }
      existed := !Expired(table[key], now);
      Drop(key, 0);
    }

    /** A live entry's new value and its `delta` bytes; an emptied collection goes at once. */
    method Change(key: Bytes, value: Value, delta: int, clock: nat)
      requires Exact() && key in table
      modifies this
      ensures OffBy(delta - (ApproxSize(value) - ApproxSize(old(table)[key].value)))
      ensures table == if EmptyCollection(value) then old(table) - {key}
                       else old(table)[key := Entry(value, old(table)[key].expiresAt, clock)]
    {
      hide Total, ApproxSize;
      var e := Entry(value, table[key].expiresAt, clock);
      ghost var wrong := delta - (ApproxSize(value) - ApproxSize(table[key].value));
      TotalWithout(table, key);
      TotalWith(table, key, e);
      WrapStep(Total(table), delta);
      table := table[key := e];
      if delta > 0 {
        FetchAdd(delta);
      } else if delta < 0 {
        FetchAdd(-(-delta));
      }
      if EmptyCollection(value) {
        Drop(key, wrong);
      }
    }

    /** `with_mut`: measures the value before and after. */
    method WithMut(key: Bytes, f: Value -> Value, now: nat, clock: nat)
      requires Exact()
      modifies this
      ensures Exact()
      ensures Live(table, now) == Changed(old(Live(table, now)), key, f)
      ensures table == Mutated(old(table), key, f, now, clock)
    {
      hide Total, ApproxSize, EmptyCollection;
      if key in table && Expired(table[key], now) {
        Drop(key, 0);
      }
      if key in table {
        var oldSize: int := ApproxSize(table[key].value);
        var value := f(table[key].value);
        Change(key, value, ApproxSize(value) - oldSize, clock);
      }
    }

    /** `with_mut_delta`: the closure reports how many bytes its change added or freed, and the counter
        goes wrong by exactly what that report is wrong. */
    method WithMutDelta(key: Bytes, f: Value -> (Value, int), now: nat, clock: nat)
      requires Exact()
      modifies this
      ensures Live(table, now) == Changed(old(Live(table, now)), key, v => f(v).0)
      ensures OffBy(Misreported(old(Live(table, now)), key, f))
      ensures table == Mutated(old(table), key, v => f(v).0, now, clock)
    {
      hide Total, ApproxSize, EmptyCollection, OffBy;
      if key in table && Expired(table[key], now) {
        Drop(key, 0);
      }
      assert old(Live(table, now)) == Live(table, now);
      if key in table {
        ghost var t := table;
        var (value, delta) := f(table[key].value);
        Change(key, value, delta, clock);
        ChangedLive(t, table, key, value, now);
      }
    }

    /** So it stays exact if and only if the report is right. */
    lemma OffByZero(d: int)
      requires OffBy(d)
      ensures Exact() <==> Wrap(d) == 0
    {
      WrapStep(Total(table), d);
      WrapStep(d, Total(table));
    }

    lemma ChangedLive(t: Table, after: Table, key: Bytes, value: Value, now: nat)
      requires key in t && !Expired(t[key], now)
      requires after == if EmptyCollection(value) then t - {key}
                        else t[key := Entry(value, t[key].expiresAt, if key in after then after[key].touched else 0)]
      ensures Live(after, now) == if EmptyCollection(value) then Live(t, now) - {key} else Live(t, now)[key := value]
    {
      hide EmptyCollection;
    }

    /** `remove_expired`: `retain` over the whole table, then one settlement. */
    method RemoveExpired(now: nat) returns (removed: nat)
      requires Exact()
      modifies this
      ensures Exact() && Live(table, now) == old(Live(table, now))
      ensures table == map k | k in old(table) && !Expired(old(table)[k], now) :: old(table)[k]
      ensures removed == |old(table)| - |table|
    {
      hide Total, Expired;
      var kept, removedBytes;
      kept, removedBytes, removed := Retain(table, now);
      table := kept;
      WrapStep(Total(old(table)), -removedBytes);
      FetchAdd(-removedBytes);
    }

    /** `clear`. */
    method Clear()
      modifies this
      ensures table == map[] && Exact()
    {
      table, bytesUsed := map[], 0;
    }
  }
}
