// Getting back under the memory ceiling. crates/engine/src/engine.rs:241-306, store.rs:38-129.
module Eviction {
  import opened Bytes
  import opened Values
  import opened Shard
  import C = Commands

  const MAX_EVICTION_ATTEMPTS: nat := 1000
  const SAMPLE_PER_SHARD: nat := 5

  ghost function GrandTotal(ts: seq<Table>): (n: nat)
  {
    if ts == [] then 0 else GrandTotal(ts[..|ts| - 1]) + Total(ts[|ts| - 1])
  }

  function Count(ts: seq<Table>): (n: nat)
  {
    if ts == [] then 0 else Count(ts[..|ts| - 1]) + |ts[|ts| - 1]|
  }

  function SumUsed(used: seq<nat>): (n: nat)
  {
    if used == [] then 0 else SumUsed(used[..|used| - 1]) + used[|used| - 1]
  }

  /** A candidate for eviction: a key and the tick of its last use. */
  datatype Candidate = Candidate(key: Bytes, tick: nat)

  predicate Sampled(ts: seq<Table>, x: Candidate)
  {
    exists i :: 0 <= i < |ts| && x.key in ts[i] && ts[i][x.key].touched == x.tick
  }

  /** `sample_recency`: `n` different entries with their ticks, or all of them when there are fewer. */
  predicate SampleOf(t: Table, r: seq<Candidate>, n: nat)
  {
    && |r| == (if |t| < n then |t| else n)
    && (forall i :: 0 <= i < |r| ==> r[i].key in t && t[r[i].key].touched == r[i].tick)
    && (forall i, j :: 0 <= i < j < |r| ==> r[i].key != r[j].key)
  }

  function Quota(ts: seq<Table>, n: nat): (m: nat)
  {
    if ts == [] then 0 else Quota(ts[..|ts| - 1], n) + if |ts[|ts| - 1]| < n then |ts[|ts| - 1]| else n
  }

  /** `sample_for_eviction`: such a sample of every shard, one after another. */
  predicate DrawnFrom(ts: seq<Table>, sample: seq<Candidate>, n: nat)
  {
    && |sample| == Quota(ts, n)
    && (ts == [] ||
        var front := ts[..|ts| - 1];
        DrawnFrom(front, sample[..Quota(front, n)], n) && SampleOf(ts[|ts| - 1], sample[Quota(front, n)..], n))
  }

  predicate Oldest(sample: seq<Candidate>, x: Candidate)
  {
    x in sample && forall y :: y in sample ==> x.tick <= y.tick
  }

  /** One eviction: what was sampled and what was taken. */
  datatype Victim = Victim(sample: seq<Candidate>, taken: Candidate)

  /** An eviction from these tables: the oldest of a fresh sample. */
  predicate Evicts(ts: seq<Table>, v: Victim)
  {
    DrawnFrom(ts, v.sample, SAMPLE_PER_SHARD) && Oldest(v.sample, v.taken)
  }

  function Deleted(h: C.Hash, ts: seq<Table>, key: Bytes): (r: seq<Table>)
    requires |ts| == C.SHARD_COUNT
    ensures |r| == C.SHARD_COUNT
  {
    var i := C.ShardOf(h, key);
    ts[i := ts[i] - {key}]
  }

  /** The tables once the victims' keys are gone, one after another. */
  function Without(h: C.Hash, ts: seq<Table>, victims: seq<Victim>): (r: seq<Table>)
    requires |ts| == C.SHARD_COUNT
    ensures |r| == C.SHARD_COUNT
  {
    if victims == [] then ts
    else Deleted(h, Without(h, ts, victims[..|victims| - 1]), victims[|victims| - 1].taken.key)
  }

  /** `evicted_entry_size`: an expired entry counts for nothing here. */
  function EvictedEntrySize(h: C.Hash, ts: seq<Table>, key: Bytes, now: nat): (n: nat)
    requires |ts| == C.SHARD_COUNT
  {
    var t := ts[C.ShardOf(h, key)];
    if key in t && !Expired(t[key], now) then EntrySize(key, t[key].value) else 0
  }

  /** The bytes the victims accounted for when each was taken. */
  function Freed(h: C.Hash, ts: seq<Table>, victims: seq<Victim>, now: nat): (n: nat)
    requires |ts| == C.SHARD_COUNT
  {
    if victims == [] then 0
    else
      var front := victims[..|victims| - 1];
      Freed(h, ts, front, now) + EvictedEntrySize(h, Without(h, ts, front), victims[|victims| - 1].taken.key, now)
  }

  /** What `memory_used` reads when the counters together are `err` bytes off: a 64-bit sum. */
  ghost function Reads(ts: seq<Table>, err: int): (n: nat) { Wrap(GrandTotal(ts) + err) }

  /** A run of evictions from `before` to `after`: each victim is the oldest of a sample drawn from the
      tables as the earlier victims left them, each was taken while the reading was over the ceiling,
      nothing but the victims is gone, and `freed` is what they accounted for. */
  ghost predicate EvictionRun(h: C.Hash, before: seq<Table>, after: seq<Table>, victims: seq<Victim>, err: int, ceiling: nat, now: nat, freed: nat)
    requires |before| == C.SHARD_COUNT
  {
    && after == Without(h, before, victims)
    && (forall i :: 0 <= i < |victims| ==> Evicts(Without(h, before, victims[..i]), victims[i]))
    && (forall i :: 0 <= i < |victims| ==> Reads(Without(h, before, victims[..i]), err) > ceiling)
    && freed == Freed(h, before, victims, now) && GrandTotal(after) + freed <= GrandTotal(before)
    && Count(after) + |victims| == Count(before)
  }

  /** The three ways a run ends. */
  ghost predicate Ends(after: seq<Table>, victims: seq<Victim>, err: int, ceiling: nat)
  {
    Reads(after, err) <= ceiling || |victims| == MAX_EVICTION_ATTEMPTS || Count(after) == 0
  }

  predicate Placed(h: C.Hash, ts: seq<Table>)
  {
    |ts| == C.SHARD_COUNT && forall i, k :: 0 <= i < C.SHARD_COUNT && k in ts[i] ==> C.ShardOf(h, k) == i
  }

  lemma OneMoreVictim(h: C.Hash, before: seq<Table>, ts: seq<Table>, victims: seq<Victim>, err: int, ceiling: nat, now: nat, freed: nat, v: Victim)
    requires |before| == C.SHARD_COUNT && Placed(h, ts) && EvictionRun(h, before, ts, victims, err, ceiling, now, freed)
    requires Evicts(ts, v) && Reads(ts, err) > ceiling
    ensures EvictionRun(h, before, Deleted(h, ts, v.taken.key), victims + [v], err, ceiling, now,
                        freed + EvictedEntrySize(h, ts, v.taken.key, now))
  {
    hide GrandTotal, Reads, Count, Deleted, EvictedEntrySize, Evicts;
    var all := victims + [v];
    MoreVictims(victims, v);
    TakenOut(h, ts, v, now);
    assert Without(h, before, all) == Deleted(h, ts, v.taken.key);
    forall i | 0 <= i < |all| ensures Evicts(Without(h, before, all[..i]), all[i]) && Reads(Without(h, before, all[..i]), err) > ceiling {
      assert i == |victims| || (all[..i] == victims[..i] && all[i] == victims[i]);
    }
  }

  lemma MoreVictims(victims: seq<Victim>, v: Victim)
    ensures (victims + [v])[..|victims|] == victims
    ensures forall i :: 0 <= i < |victims| ==> (victims + [v])[..i] == victims[..i]
  {
  }

  /** The shard a sampled key was read from is the one its hash names. */
  lemma TakenOut(h: C.Hash, ts: seq<Table>, v: Victim, now: nat)
    requires Placed(h, ts) && Evicts(ts, v)
    ensures GrandTotal(Deleted(h, ts, v.taken.key)) + EvictedEntrySize(h, ts, v.taken.key, now) <= GrandTotal(ts)
    ensures Count(Deleted(h, ts, v.taken.key)) + 1 == Count(ts)
  {
    hide GrandTotal, Count, DrawnFrom, EntrySize;
    var x := v.taken;
    DrawnSampled(ts, v.sample, SAMPLE_PER_SHARD, x);
    var i :| 0 <= i < |ts| && x.key in ts[i] && ts[i][x.key].touched == x.tick;
    TakeOut(ts, i, x.key);
  }

  // ----- what a sample says about the tables -----

  lemma DrawnSnoc(ts: seq<Table>, sample: seq<Candidate>, some: seq<Candidate>, n: nat)
    requires ts != [] && DrawnFrom(ts[..|ts| - 1], sample, n) && SampleOf(ts[|ts| - 1], some, n)
    ensures DrawnFrom(ts, sample + some, n)
  {
    assert (sample + some)[..|sample|] == sample && (sample + some)[|sample|..] == some;
  }

  lemma {:induction false} DrawnSampled(ts: seq<Table>, sample: seq<Candidate>, n: nat, x: Candidate)
    requires DrawnFrom(ts, sample, n) && x in sample
    ensures Sampled(ts, x)
    decreases |ts|
  {
    var front := ts[..|ts| - 1];
    var m := Quota(front, n);
    assert sample == sample[..m] + sample[m..];
    if x in sample[..m] {
      DrawnSampled(front, sample[..m], n, x);
      var i :| 0 <= i < |front| && x.key in front[i] && front[i][x.key].touched == x.tick;
      assert ts[i] == front[i];
    } else {
      var j :| 0 <= j < |sample[m..]| && sample[m..][j] == x;
      assert x.key in ts[|ts| - 1];
    }
  }

  lemma {:induction false} DistinctKeys(r: seq<Candidate>)
    requires forall i, j :: 0 <= i < j < |r| ==> r[i].key != r[j].key
    ensures |set i | 0 <= i < |r| :: r[i].key| == |r|
  {
    if r != [] {
      var front, last := r[..|r| - 1], |r| - 1;
      DistinctKeys(front);
      var keys := set i | 0 <= i < |front| :: front[i].key;
      assert (set i | 0 <= i < |r| :: r[i].key) == keys + {r[last].key};
    }
  }

  /** A small shard is sampled whole. */
  lemma WholeSample(t: Table, r: seq<Candidate>, n: nat, key: Bytes)
    requires SampleOf(t, r, n) && |t| <= n && key in t
    ensures Candidate(key, t[key].touched) in r
  {
    var keys := set i | 0 <= i < |r| :: r[i].key;
    DistinctKeys(r);
    assert keys <= t.Keys && |keys| == |t.Keys|;
    SameSize(keys, t.Keys);
    var i :| 0 <= i < |r| && r[i].key == key;
    assert r[i] == Candidate(key, t[key].touched);
  }

  lemma {:induction false} SameSize(a: set<Bytes>, b: set<Bytes>)
    requires a <= b && |a| == |b|
    ensures a == b
  {
    if k :| k in b && k !in a {
      assert a <= b - {k};
      Smaller(a, b - {k});
    }
  }

  lemma {:induction false} Smaller(a: set<Bytes>, b: set<Bytes>)
    requires a <= b
    ensures |a| <= |b|
  {
    if a != {} {
      var k :| k in a;
      Smaller(a - {k}, b - {k});
    }
  }

  lemma {:induction false} WholeShard(ts: seq<Table>, sample: seq<Candidate>, n: nat, i: nat, key: Bytes)
    requires DrawnFrom(ts, sample, n) && i < |ts| && |ts[i]| <= n && key in ts[i]
    ensures Candidate(key, ts[i][key].touched) in sample
    decreases |ts|
  {
    var front := ts[..|ts| - 1];
    var m := Quota(front, n);
    assert sample == sample[..m] + sample[m..];
    if i == |ts| - 1 {
      WholeSample(ts[i], sample[m..], n, key);
    } else {
      WholeShard(front, sample[..m], n, i, key);
    }
  }

  /** Exact LRU among the shards that hold no more than a sample does: no entry there was used longer ago
      than the victim. */
  lemma ExactLru(ts: seq<Table>, v: Victim)
    requires Evicts(ts, v)
    ensures Sampled(ts, v.taken)
    ensures forall i, k :: 0 <= i < |ts| && |ts[i]| <= 5 && k in ts[i] ==> v.taken.tick <= ts[i][k].touched
  {
    DrawnSampled(ts, v.sample, SAMPLE_PER_SHARD, v.taken);
    forall i, k | 0 <= i < |ts| && |ts[i]| <= SAMPLE_PER_SHARD && k in ts[i] ensures v.taken.tick <= ts[i][k].touched {
      WholeShard(ts, v.sample, SAMPLE_PER_SHARD, i, k);
    }
  }

  lemma {:induction false} SomethingDrawn(ts: seq<Table>, n: nat, i: nat)
    requires n > 0 && i < |ts| && ts[i] != map[]
    ensures Quota(ts, n) > 0
  {
    if i < |ts| - 1 {
      SomethingDrawn(ts[..|ts| - 1], n, i);
    }
  }

  // ----- bookkeeping -----

  lemma {:induction false} TakeOut(ts: seq<Table>, i: nat, key: Bytes)
    requires i < |ts| && key in ts[i]
    ensures GrandTotal(ts[i := ts[i] - {key}]) == GrandTotal(ts) - EntrySize(key, ts[i][key].value)
    ensures Count(ts[i := ts[i] - {key}]) == Count(ts) - 1
  {
    hide Total, EntrySize;
    var n := |ts| - 1;
    if i == n {
      assert ts[i := ts[i] - {key}][..n] == ts[..n];
      TotalWithout(ts[i], key);
      OneFewer(ts[i], key);
    } else {
      TakeOut(ts[..n], i, key);
      assert ts[i := ts[i] - {key}][..n] == ts[..n][i := ts[i] - {key}];
    }
  }

  /** By how much the counters together miss what the entries account for. */
  ghost function Error(ts: seq<Table>, used: seq<nat>): (n: nat) { Wrap(SumUsed(used) - GrandTotal(ts)) }

  /** Exact counters make no error. */
  lemma {:induction false} UsedIsTotal(ts: seq<Table>, used: seq<nat>)
    requires |ts| == |used| && forall i :: 0 <= i < |ts| ==> used[i] == Total(ts[i])
    ensures SumUsed(used) == GrandTotal(ts) && Error(ts, used) == 0
  {
    hide Total;
    if ts != [] {
      UsedIsTotal(ts[..|ts| - 1], used[..|ts| - 1]);
    }
  }

  lemma {:induction false} SumUpdate(used: seq<nat>, i: nat, n: nat)
    requires i < |used|
    ensures SumUsed(used[i := n]) == SumUsed(used) - used[i] + n
  {
    var k := |used| - 1;
    if i == k {
      assert used[i := n][..k] == used[..k];
    } else {
      SumUpdate(used[..k], i, n);
      assert used[i := n][..k] == used[..k][i := n];
    }
  }

  /** Deleting an entry and taking its size off its counter, round the word if need be, keeps the error. */
  lemma ErrorKept(ts: seq<Table>, used: seq<nat>, i: nat, key: Bytes)
    requires i < |ts| == |used| && key in ts[i]
    ensures Error(ts[i := ts[i] - {key}], used[i := Wrap(used[i] - EntrySize(key, ts[i][key].value))]) == Error(ts, used)
  {
    hide Total, EntrySize, GrandTotal, Count, SumUsed;
    var size: int := EntrySize(key, ts[i][key].value);
    TakeOut(ts, i, key);
    SumUpdate(used, i, Wrap(used[i] - size));
    var rest := SumUsed(used) - used[i] - GrandTotal(ts) + size;
    WrapStep(used[i] - size, rest);
  }

  lemma {:induction false} SomethingCounted(ts: seq<Table>)
    requires Count(ts) > 0
    ensures exists i :: 0 <= i < |ts| && ts[i] != map[]
  {
    if |ts[|ts| - 1]| == 0 {
      SomethingCounted(ts[..|ts| - 1]);
      var i :| 0 <= i < |ts| - 1 && ts[..|ts| - 1][i] != map[];
      assert ts[i] != map[];
    }
  }

  class Store {
    const h: C.Hash
    var tables: seq<Table>
    var used: seq<nat>
    var evictionCount: nat

    /** Keys live where their hash sends them; the counters may say anything. */
    ghost predicate Valid()
      reads this
    {
      |tables| == |used| == C.SHARD_COUNT && Placed(h, tables)
    }

    ghost function Off(): (n: nat)
      reads this
    {
      Error(tables, used)
    }

    constructor (hash: C.Hash)
      ensures Valid() && Count(tables) == 0 && Off() == 0 && h == hash
    {
      h, evictionCount := hash, 0;
      tables, used := seq(C.SHARD_COUNT, _ => map[]), seq(C.SHARD_COUNT, _ => 0);
      new;
      UsedIsTotal(tables, used);
      NothingCounted(tables);
    }

    /** `memory_used`: the counters added up in a word. */
    method MemoryUsed() returns (n: nat)
      requires Valid()
      ensures n == Reads(tables, Off())
    {
      hide GrandTotal;
      n := 0;
      var i := 0;
      while i < |used|
        invariant 0 <= i <= |used| && n == Wrap(SumUsed(used[..i]))
      {
        assert used[..i + 1][..i] == used[..i];
        WrapStep(SumUsed(used[..i]), used[i]);
        n, i := Wrap(n + used[i]), i + 1;
      }
      assert used[..i] == used;
      WrapStep(SumUsed(used) - GrandTotal(tables), GrandTotal(tables));
    }

    /** `sample_for_eviction`. */
    method SampleForEviction(perShard: nat) returns (sample: seq<Candidate>)
      requires Valid()
      ensures DrawnFrom(tables, sample, perShard)
    {
      hide SampleOf, Total;
      sample := [];
      var i := 0;
      while i < |tables|
        invariant 0 <= i <= |tables| && DrawnFrom(tables[..i], sample, perShard)
      {
        var some := SampleRecency(tables[i], perShard);
        assert tables[..i + 1][..i] == tables[..i];
        DrawnSnoc(tables[..i + 1], sample, some, perShard);
        sample, i := sample + some, i + 1;
      }
      assert tables[..i] == tables;
    }

    /** `del`. */
    method Del(key: Bytes)
      requires Valid()
      modifies this`tables, this`used
      ensures Valid() && Off() == old(Off())
      ensures tables == Deleted(h, old(tables), key)
    {
      hide Error;
      var i := C.ShardOf(h, key);
      if key !in tables[i] {
        TotalAbsent(tables[i], key);
        assert tables[i := tables[i] - {key}] == tables;
        return;
      }
      ErrorKept(tables, used, i, key);
      used := used[i := Wrap(used[i] - EntrySize(key, tables[i][key].value))];
      tables := tables[i := tables[i] - {key}];
    }

    /** `maybe_evict`, whatever the counters say: it ends when the reading is at or under the ceiling, after
        exactly 1000 evictions, or with nothing left. */
    method MaybeEvict(ceiling: Option<nat>, now: nat) returns (attempts: nat, totalFreed: nat, ghost victims: seq<Victim>)
      requires Valid()
      modifies this
      ensures Valid() && Off() == old(Off())
      ensures attempts == |victims| <= MAX_EVICTION_ATTEMPTS && evictionCount == old(evictionCount) + attempts
      ensures ceiling.None? ==> attempts == totalFreed == 0 && tables == old(tables)
      ensures ceiling.Some? ==> EvictionRun(h, old(tables), tables, victims, old(Off()), ceiling.value, now, totalFreed)
      ensures ceiling.Some? ==> Ends(tables, victims, old(Off()), ceiling.value)
    {
      hide Total, EntrySize, GrandTotal, Reads, Error, Count, DrawnFrom, Quota, Deleted, EvictedEntrySize, EvictionRun;
      attempts, totalFreed, victims := 0, 0, [];
      if ceiling.None? {
        return;
      }
      var memory := MemoryUsed();
      NoVictims(h, tables, Off(), ceiling.value, now);
      while memory > ceiling.value && attempts < MAX_EVICTION_ATTEMPTS
        invariant Valid() && Off() == old(Off()) && memory == Reads(tables, old(Off()))
        invariant attempts == |victims| <= MAX_EVICTION_ATTEMPTS && evictionCount == old(evictionCount) + attempts
        invariant EvictionRun(h, old(tables), tables, victims, old(Off()), ceiling.value, now, totalFreed)
        decreases MAX_EVICTION_ATTEMPTS - attempts
      {
        var sample := SampleForEviction(SAMPLE_PER_SHARD);
        if sample == [] {
          NothingSampled(tables);
          break;
        }
        var taken := MinByTick(sample);
        var freed := EvictedEntrySize(h, tables, taken.key, now);
        OneMoreVictim(h, old(tables), tables, victims, old(Off()), ceiling.value, now, totalFreed, Victim(sample, taken));
        Del(taken.key);
        totalFreed, evictionCount, attempts := totalFreed + freed, evictionCount + 1, attempts + 1;
        victims := victims + [Victim(sample, taken)];
        memory := MemoryUsed();
      }
    }
  }

  lemma NoVictims(h: C.Hash, ts: seq<Table>, err: int, ceiling: nat, now: nat)
    requires |ts| == C.SHARD_COUNT
    ensures EvictionRun(h, ts, ts, [], err, ceiling, now, 0)
  {
  }

  lemma NothingSampled(ts: seq<Table>)
    requires DrawnFrom(ts, [], SAMPLE_PER_SHARD)
    ensures Count(ts) == 0
  {
    if Count(ts) > 0 {
      SomethingCounted(ts);
      var i :| 0 <= i < |ts| && ts[i] != map[];
      SomethingDrawn(ts, SAMPLE_PER_SHARD, i);
    }
  }

  lemma {:induction false} NothingCounted(ts: seq<Table>)
    requires forall i :: 0 <= i < |ts| ==> ts[i] == map[]
    ensures Count(ts) == 0 && GrandTotal(ts) == 0
  {
    if ts != [] {
      NothingCounted(ts[..|ts| - 1]);
    }
  }

  /** No victim had expired when it was taken. */
  predicate AllAlive(h: C.Hash, before: seq<Table>, victims: seq<Victim>, now: nat)
    requires |before| == C.SHARD_COUNT
  {
    forall i :: 0 <= i < |victims| ==>
      var t := Without(h, before, victims[..i])[C.ShardOf(h, victims[i].taken.key)];
      victims[i].taken.key in t && !Expired(t[victims[i].taken.key], now)
  }

  /** Then the bytes reported freed are exactly what the entries account for less. */
  lemma {:induction false} FreedExactly(h: C.Hash, before: seq<Table>, victims: seq<Victim>, now: nat)
    requires |before| == C.SHARD_COUNT && AllAlive(h, before, victims, now)
    ensures GrandTotal(Without(h, before, victims)) + Freed(h, before, victims, now) == GrandTotal(before)
  {
    hide GrandTotal, Count, EntrySize;
    if victims != [] {
      var front, v := victims[..|victims| - 1], victims[|victims| - 1];
      forall i | 0 <= i < |front| ensures front[..i] == victims[..i] {
      }
      FreedExactly(h, before, front, now);
      TakeOut(Without(h, before, front), C.ShardOf(h, v.taken.key), v.taken.key);
    }
  }

  /** A victim that had expired is not reported, though its bytes are freed too. */
  lemma ExpiredNotReported(h: C.Hash, ts: seq<Table>, key: Bytes, now: nat)
    requires |ts| == C.SHARD_COUNT && key in ts[C.ShardOf(h, key)] && Expired(ts[C.ShardOf(h, key)][key], now)
    ensures EvictedEntrySize(h, ts, key, now) == 0 && GrandTotal(Deleted(h, ts, key)) < GrandTotal(ts)
  {
    hide GrandTotal, Count;
    TakeOut(ts, C.ShardOf(h, key), key);
  }

  // ----- with exact counters, and with a wrapped one -----

  lemma {:induction false} EmptyAccounts(ts: seq<Table>)
    requires Count(ts) == 0
    ensures GrandTotal(ts) == 0
  {
    if ts != [] {
      EmptyAccounts(ts[..|ts| - 1]);
      assert ts[|ts| - 1] == map[];
    }
  }

  /** With exact counters: each victim was taken while the entries accounted for more than the ceiling, and
      the run ends at or under it or after exactly 1000 evictions. */
  lemma ExactEviction(h: C.Hash, before: seq<Table>, after: seq<Table>, victims: seq<Victim>, ceiling: nat, now: nat, freed: nat)
    requires |before| == C.SHARD_COUNT && GrandTotal(before) < WORD
    requires EvictionRun(h, before, after, victims, 0, ceiling, now, freed) && Ends(after, victims, 0, ceiling)
    ensures forall i :: 0 <= i < |victims| ==> GrandTotal(Without(h, before, victims[..i])) > ceiling
    ensures GrandTotal(after) <= ceiling || |victims| == 1000
    ensures GrandTotal(before) <= ceiling ==> victims == [] && after == before
  {
    hide GrandTotal, Count, Evicts;
    forall i | 0 <= i < |victims| ensures GrandTotal(Without(h, before, victims[..i])) > ceiling {
      assert Reads(Without(h, before, victims[..i]), 0) > ceiling;
      SmallReading(GrandTotal(Without(h, before, victims[..i])));
    }
    if victims != [] {
      assert victims[..0] == [];
    }
    if Count(after) == 0 {
      EmptyAccounts(after);
    }
    SmallReading(GrandTotal(after));
  }

  /** Whatever the counters say, something is evicted if and only if there is something and the reading is
      over the ceiling; what the entries account for does not come into it. */
  lemma EvictsIff(h: C.Hash, before: seq<Table>, after: seq<Table>, victims: seq<Victim>, err: int, ceiling: nat, now: nat, freed: nat)
    requires |before| == C.SHARD_COUNT
    requires EvictionRun(h, before, after, victims, err, ceiling, now, freed) && Ends(after, victims, err, ceiling)
    ensures victims != [] <==> Count(before) > 0 && Reads(before, err) > ceiling
  {
    hide GrandTotal, Reads, Count, Evicts, Freed;
    if victims != [] {
      assert victims[..0] == [];
      assert Without(h, before, victims[..0]) == before;
    }
  }

  lemma SmallReading(n: nat)
    ensures Wrap(n) <= n && (n < WORD ==> Wrap(n) == n)
  {
  }

  /** With more outstanding on one shard than all entries account for, as `ShardLedger.EvictionWrap` leaves
      it: the reading stays near 2^64 however much goes, and the run takes everything it may, though the
      entries never came near the ceiling. */
  lemma WrappedEvictsAll(h: C.Hash, before: seq<Table>, after: seq<Table>, victims: seq<Victim>, owed: nat, ceiling: nat, now: nat, freed: nat)
    requires |before| == C.SHARD_COUNT && GrandTotal(before) < owed && ceiling + owed < WORD && |victims| <= MAX_EVICTION_ATTEMPTS
    requires EvictionRun(h, before, after, victims, WORD - owed, ceiling, now, freed) && Ends(after, victims, WORD - owed, ceiling)
    ensures |victims| == if Count(before) < 1000 then Count(before) else 1000
  {
    hide GrandTotal, Count, EvictionRun, Wrap;
    RunCounts(h, before, after, victims, WORD - owed, ceiling, now, freed);
    HugeReading(GrandTotal(after), owed, ceiling);
  }

  lemma HugeReading(total: nat, owed: nat, ceiling: nat)
    requires total < owed && ceiling + owed < WORD
    ensures Wrap(total + (WORD - owed)) > ceiling
  {
    SmallReading(total + (WORD - owed));
  }

  /** One entry of 50 bytes. */
  const HELD: seq<Table> := seq(C.SHARD_COUNT, i => if i == 1 then map[[0] := Entry(String([0]), None, 0)] else map[])

  /** Under a ceiling of 1000, beside a shard that is owed 60: it is evicted all the same. */
  lemma WrappedInput(h: C.Hash, after: seq<Table>, victims: seq<Victim>, now: nat, freed: nat)
    requires C.ShardOf(h, [0]) == 1 && |victims| <= MAX_EVICTION_ATTEMPTS
    requires EvictionRun(h, HELD, after, victims, WORD - 60, 1000, now, freed) && Ends(after, victims, WORD - 60, 1000)
    ensures Placed(h, HELD) && GrandTotal(HELD) == 50 && |victims| == 1 && Count(after) == 0
  {
    hide GrandTotal, Count, Evicts, EvictionRun, Ends;
    var e := Entry(String([0]), None, 0);
    var one: Table := map[[0] := e];
    assert HELD[1] == one && EntrySize([0], e.value) == 50;
    TakeOut(HELD, 1, [0]);
    assert one - {[0]} == map[];
    NothingCounted(HELD[1 := one - {[0]}]);
    WrappedEvictsAll(h, HELD, after, victims, 60, 1000, now, freed);
    RunCounts(h, HELD, after, victims, WORD - 60, 1000, now, freed);
  }

  lemma RunCounts(h: C.Hash, before: seq<Table>, after: seq<Table>, victims: seq<Victim>, err: int, ceiling: nat, now: nat, freed: nat)
    requires |before| == C.SHARD_COUNT && EvictionRun(h, before, after, victims, err, ceiling, now, freed)
    ensures Count(after) + |victims| == Count(before) && GrandTotal(after) <= GrandTotal(before)
  {
    hide GrandTotal, Count, Evicts, Reads, Without, Freed;
  }

  /** `sample_recency`, in whatever order the table gives its entries. */
  method SampleRecency(t: Table, n: nat) returns (r: seq<Candidate>)
    ensures SampleOf(t, r, n)
  {
    r := [];
    var pending := t.Keys;
    while pending != {} && |r| < n
      invariant pending <= t.Keys && |r| <= n && |r| + |pending| == |t|
      invariant forall i :: 0 <= i < |r| ==> r[i].key in t && t[r[i].key].touched == r[i].tick && r[i].key !in pending
      invariant forall i, j :: 0 <= i < j < |r| ==> r[i].key != r[j].key
      decreases pending
    {
      var k :| k in pending;
      pending := pending - {k};
      r := r + [Candidate(k, t[k].touched)];
    }
  }

  /** `min_by_key`: the first of the smallest. */
  method MinByTick(sample: seq<Candidate>) returns (x: Candidate)
    requires sample != []
    ensures Oldest(sample, x)
    ensures exists i :: 0 <= i < |sample| && sample[i] == x && forall j :: 0 <= j < i ==> sample[j].tick > x.tick
  {
    var best, i := 0, 1;
    while i < |sample|
      invariant 0 <= best < i <= |sample|
      invariant forall j :: 0 <= j < i ==> sample[best].tick <= sample[j].tick
      invariant forall j :: 0 <= j < best ==> sample[j].tick > sample[best].tick
    {
      if sample[i].tick < sample[best].tick {
        best := i;
      }
      i := i + 1;
    }
    x := sample[best];
  }
}
