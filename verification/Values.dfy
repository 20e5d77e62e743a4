// Values, entries and their accounted sizes. crates/engine/src/value.rs:55-100, shard.rs:8-22.
module Values {
  import opened Bytes

  /** Collections are given by their elements, in iteration order. */
  datatype Value =
    | String(data: Bytes)
    | List(items: seq<Bytes>)
    | Hash(fields: seq<(Bytes, Bytes)>)
    | Set(members: seq<Bytes>)
    | SortedSet(ranked: seq<Bytes>)

  datatype Entry = Entry(value: Value, expiresAt: Option<nat>, touched: nat)

  type Table = map<Bytes, Entry>

  const OVERHEAD: nat := 48

  function ItemBytes(items: seq<Bytes>, each: nat): (n: nat)
    ensures items == [] ==> n == 0
  {
    if items == [] then 0 else ItemBytes(items[..|items| - 1], each) + |items[|items| - 1]| + each
  }

  function FieldBytes(fields: seq<(Bytes, Bytes)>): (n: nat)
    ensures fields == [] ==> n == 0
  {
    if fields == [] then 0
    else FieldBytes(fields[..|fields| - 1]) + |fields[|fields| - 1].0| + |fields[|fields| - 1].1| + 16
  }

  /** `approx_size`. */
  function ApproxSize(v: Value): (n: nat)
    ensures n >= OVERHEAD && (EmptyCollection(v) ==> n == OVERHEAD)
  {
    OVERHEAD + match v
    case String(b) => |b|
    case List(items) => ItemBytes(items, 8)
    case Hash(fields) => FieldBytes(fields)
    case Set(members) => ItemBytes(members, 8)
    case SortedSet(ranked) => ItemBytes(ranked, 24)
  }

  /** `is_empty_collection`. */
  predicate EmptyCollection(v: Value)
  {
    match v
    case String(_) => false
    case List(items) => items == []
    case Hash(fields) => fields == []
    case Set(members) => members == []
    case SortedSet(ranked) => ranked == []
  }

  function EntrySize(key: Bytes, v: Value): (n: nat)
    ensures n > 0
  {
    |key| + ApproxSize(v)
  }

  predicate Expired(e: Entry, now: nat) { e.expiresAt.Some? && now >= e.expiresAt.value }

  /** An entry is gone from the very moment it expires at. */
  lemma ExpiryMoment(e: Entry, now: nat)
    ensures e.expiresAt.None? ==> !Expired(e, now)
    ensures e.expiresAt == Some(now) ==> Expired(e, now)
    ensures e.expiresAt == Some(now + 1) ==> !Expired(e, now) && Expired(e, now + 1)
  {
  }

  /** The bytes a table's entries account for. */
  ghost function Total(t: Table): (n: nat)
    decreases |t|
  {
    if t == map[] then 0 else
    var k :| k in t;
    SmallerTable(t, k);
    EntrySize(k, t[k].value) + Total(t - {k})
  }

  lemma SmallerTable(t: Table, k: Bytes)
    requires k in t
    ensures |t - {k}| < |t|
  {
    assert (t - {k}).Keys == t.Keys - {k};
    assert |t.Keys| == |t| && |(t - {k}).Keys| == |t - {k}|;
  }

  /** Taking any entry out takes its size off. */
  lemma {:induction false} TotalWithout(t: Table, k: Bytes)
    requires k in t
    ensures Total(t) == EntrySize(k, t[k].value) + Total(t - {k})
    decreases |t|
  {
    hide EntrySize;
    var j :| j in t && Total(t) == EntrySize(j, t[j].value) + Total(t - {j});
    if j != k {
      SmallerTable(t, j);
      SmallerTable(t, k);
      TotalWithout(t - {j}, k);
      TotalWithout(t - {k}, j);
      assert t - {j} - {k} == t - {k} - {j};
    }
  }

  /** Putting an entry in place of what was there, if anything. */
  lemma TotalWith(t: Table, k: Bytes, e: Entry)
    ensures Total(t[k := e]) == Total(t - {k}) + EntrySize(k, e.value)
  {
    hide EntrySize;
    TotalWithout(t[k := e], k);
    assert t[k := e] - {k} == t - {k};
  }

  lemma TotalAbsent(t: Table, k: Bytes)
    requires k !in t
    ensures t - {k} == t
  {
  }

  /** What a reader at time `now` can see. */
  function Live(t: Table, now: nat): (r: map<Bytes, Value>)
  {
    map k | k in t && !Expired(t[k], now) :: t[k].value
  }
}
