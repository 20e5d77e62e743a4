// What the collection commands do to a value, and the bytes they report for it to `with_mut_delta`.
// crates/engine/src/commands/list.rs, set.rs, sorted_set.rs, hash.rs. Sets and hashes are held as
// their elements in some order, without repetition.
module Deltas {
  import opened Bytes
  import opened Values
  import opened Shard

  const LIST_COST: nat := 8
  const SET_COST: nat := 8
  const SORTED_SET_COST: nat := 24

  /** How much larger the elements have become, as `approx_size` counts them. */
  function Growth(before: seq<Bytes>, after: seq<Bytes>, each: nat): (n: int)
  {
    ItemBytes(after, each) - ItemBytes(before, each)
  }

  lemma {:induction false} ItemsAppend(a: seq<Bytes>, b: seq<Bytes>, each: nat)
    ensures ItemBytes(a + b, each) == ItemBytes(a, each) + ItemBytes(b, each)
    decreases |b|
  {
    if b == [] {
      assert a + b == a;
    } else {
      ItemsAppend(a, b[..|b| - 1], each);
      assert (a + b)[..|a + b| - 1] == a + b[..|b| - 1];
    }
  }

  lemma OneItem(x: Bytes, each: nat)
    ensures ItemBytes([x], each) == |x| + each
  {
    assert [x][..0] == [];
  }

  /** One element more or less, anywhere. */
  lemma ItemsAt(items: seq<Bytes>, i: nat, each: nat)
    requires i < |items|
    ensures ItemBytes(items, each) == ItemBytes(items[..i] + items[i + 1..], each) + |items[i]| + each
  {
    assert items == items[..i] + ([items[i]] + items[i + 1..]);
    ItemsAppend(items[..i], [items[i]] + items[i + 1..], each);
    ItemsAppend([items[i]], items[i + 1..], each);
    ItemsAppend(items[..i], items[i + 1..], each);
    OneItem(items[i], each);
  }

  /** The same element count and bytes for the value as a whole. */
  lemma GrowthIsApprox(before: seq<Bytes>, after: seq<Bytes>)
    ensures ApproxSize(List(after)) - ApproxSize(List(before)) == Growth(before, after, LIST_COST)
    ensures ApproxSize(Set(after)) - ApproxSize(Set(before)) == Growth(before, after, SET_COST)
    ensures ApproxSize(SortedSet(after)) - ApproxSize(SortedSet(before)) == Growth(before, after, SORTED_SET_COST)
  {
  }

  // ----- what each command does to the value it finds, and the bytes it reports -----

  function Reversed(s: seq<Bytes>): (r: seq<Bytes>)
    ensures |r| == |s|
  {
    if s == [] then [] else [s[|s| - 1]] + Reversed(s[..|s| - 1])
  }

  type Closure = Value -> (Value, int)

  /** RPUSH. */
  function Rpush(values: seq<Bytes>): (f: Closure)
  {
    (v: Value) => if v.List? then (List(v.items + values), ItemBytes(values, LIST_COST) as int) else (v, 0)
  }

  /** LPUSH: the last argument ends up first. */
  function Lpush(values: seq<Bytes>): (f: Closure)
  {
    (v: Value) => if v.List? then (List(Reversed(values) + v.items), ItemBytes(values, LIST_COST) as int) else (v, 0)
  }

  /** The list without its element `at`. */
  function DropAt(items: seq<Bytes>, at: nat): (r: seq<Bytes>)
  {
    if at < |items| then items[..at] + items[at + 1..] else items
  }

  /** LPOP and RPOP, given which end; an empty list pops nothing. */
  function PopEnd(front: bool): (f: Closure)
  {
    (v: Value) =>
      if v.List? && v.items != [] then
        var at := if front then 0 else |v.items| - 1;
        (List(DropAt(v.items, at)), -(|v.items[at]| + LIST_COST) as int)
      else (v, 0)
  }

  /** A Redis index counts from the end when it is negative. */
  function Index(len: nat, i: int): (r: int) { if i < 0 then len + i else i }

  /** LSET; an index outside the list is answered with an error. */
  function Lset(index: int, x: Bytes): (f: Closure)
  {
    (v: Value) =>
      if v.List? && 0 <= Index(|v.items|, index) < |v.items| then
        var at := Index(|v.items|, index);
        (List(v.items[at := x]), |x| - |v.items[at]|)
      else (v, 0)
  }

  /** `normalize_range`. */
  function NormalizeRange(len: nat, start: int, stop: int): (r: (nat, nat))
    ensures r.0 <= r.1 <= len + 1 && r.0 <= len
  {
    var norm := (i: int) => if i < 0 then (if len + i > 0 then len + i else 0) else if i < len then i else len;
    var s, e := norm(start), norm(stop) + 1;
    if s >= e then (0, 0) else (s, e)
  }

  /** LTRIM. */
  function Ltrim(start: int, stop: int): (f: Closure)
  {
    (v: Value) =>
      if v.List? then
        var (s, e) := NormalizeRange(|v.items|, start, stop);
        var cut := if e < |v.items| then e else |v.items|;
        (List(v.items[s..cut]), -(ItemBytes(v.items[cut..], LIST_COST) + ItemBytes(v.items[..s], LIST_COST)) as int)
      else (v, 0)
  }

  /** The list without the first `n` occurrences of `x`. */
  function DropFirst(items: seq<Bytes>, x: Bytes, n: nat): (r: seq<Bytes>)
    ensures |r| <= |items|
  {
    if items == [] || n == 0 then items
    else if items[0] == x then DropFirst(items[1..], x, n - 1)
    else [items[0]] + DropFirst(items[1..], x, n)
  }

  /** The list without the last `n` occurrences of `x`. */
  function DropLast(items: seq<Bytes>, x: Bytes, n: nat): (r: seq<Bytes>)
    ensures |r| <= |items|
  {
    if items == [] || n == 0 then items
    else
      var front, last := items[..|items| - 1], items[|items| - 1];
      if last == x then DropLast(front, x, n - 1) else DropLast(front, x, n) + [last]
  }

  function Dropped(items: seq<Bytes>, count: int, x: Bytes): (r: seq<Bytes>)
    ensures |r| <= |items|
  {
    if count < 0 then DropLast(items, x, -count) else DropFirst(items, x, if count == 0 then |items| else count)
  }

  /** LREM: from the head, from the tail, or everywhere. */
  function Lrem(count: int, x: Bytes): (f: Closure)
  {
    (v: Value) =>
      if v.List? then
        var r := Dropped(v.items, count, x);
        (List(r), Copies(|r| - |v.items|, x, LIST_COST))
      else (v, 0)
  }

  /** Members added one after another, unless they are there. */
  function Added(members: seq<Bytes>, more: seq<Bytes>): (r: seq<Bytes>)
    ensures |r| >= |members|
  {
    if more == [] then members
    else
      var soFar, x := Added(members, more[..|more| - 1]), more[|more| - 1];
      if x in soFar then soFar else soFar + [x]
  }

  function AddedBytes(members: seq<Bytes>, more: seq<Bytes>, each: nat): (n: int)
  {
    if more == [] then 0
    else
      var front, x := more[..|more| - 1], more[|more| - 1];
      AddedBytes(members, front, each) + if x in Added(members, front) then 0 else |x| + each
  }

  /** Members taken out one after another, where they are there. */
  function Removed(members: seq<Bytes>, gone: seq<Bytes>): (r: seq<Bytes>)
    ensures |r| <= |members|
  {
    if gone == [] then members else DropFirst(Removed(members, gone[..|gone| - 1]), gone[|gone| - 1], 1)
  }

  function RemovedBytes(members: seq<Bytes>, gone: seq<Bytes>, each: nat): (n: int)
  {
    if gone == [] then 0
    else
      var front, x := gone[..|gone| - 1], gone[|gone| - 1];
      RemovedBytes(members, front, each) - if x in Removed(members, front) then |x| + each else 0
  }

  function Sadd(more: seq<Bytes>): (f: Closure)
  {
    (v: Value) => if v.Set? then (Set(Added(v.members, more)), AddedBytes(v.members, more, SET_COST)) else (v, 0)
  }

  /** SREM, and SPOP of the member it drew. */
  function Srem(gone: seq<Bytes>): (f: Closure)
  {
    (v: Value) => if v.Set? then (Set(Removed(v.members, gone)), RemovedBytes(v.members, gone, SET_COST)) else (v, 0)
  }

  /** ZADD and ZINCRBY: a score has no size. */
  function Zadd(member: Bytes): (f: Closure)
  {
    (v: Value) => if v.SortedSet? then (SortedSet(Added(v.ranked, [member])), AddedBytes(v.ranked, [member], SORTED_SET_COST)) else (v, 0)
  }

  function Zrem(gone: seq<Bytes>): (f: Closure)
  {
    (v: Value) => if v.SortedSet? then (SortedSet(Removed(v.ranked, gone)), RemovedBytes(v.ranked, gone, SORTED_SET_COST)) else (v, 0)
  }

  type Fields = seq<(Bytes, Bytes)>

  /** The place of the first field of that name, or the end. */
  function FieldAt(fs: Fields, f: Bytes): (i: nat)
    ensures i <= |fs| && (forall j :: 0 <= j < i ==> fs[j].0 != f) && (i < |fs| ==> fs[i].0 == f)
  {
    if fs == [] || fs[0].0 == f then 0
    else
      assert forall j :: 0 < j < |fs| ==> fs[j] == fs[1..][j - 1];
      1 + FieldAt(fs[1..], f)
  }

  /** HSET, and HINCRBY with the printed sum: a new field costs its name, an old one the difference. */
  function Hset(f: Bytes, x: Bytes): (c: Closure)
  {
    (v: Value) =>
      if v.Hash? then
        var i := FieldAt(v.fields, f);
        if i == |v.fields| then (Hash(v.fields + [(f, x)]), |f| + |x| + 16)
        else (Hash(v.fields[i := (f, x)]), |x| - |v.fields[i].1|)
      else (v, 0)
  }

  /** Fields taken out one after another, where they are there, and the bytes that frees. */
  function Unset(fs: Fields, names: seq<Bytes>): (r: (Fields, int))
  {
    if names == [] then (fs, 0)
    else
      var (rest, delta) := Unset(fs, names[..|names| - 1]);
      var i := FieldAt(rest, names[|names| - 1]);
      if i == |rest| then (rest, delta)
      else (rest[..i] + rest[i + 1..], delta - (|names[|names| - 1]| + |rest[i].1| + 16))
  }

  function Hdel(names: seq<Bytes>): (c: Closure)
  {
    (v: Value) => if v.Hash? then (Hash(Unset(v.fields, names).0), Unset(v.fields, names).1) else (v, 0)
  }

  // ----- every report is right -----

  /** Whatever value the closure finds, it reports exactly what its change adds or frees. */
  ghost predicate Truthful(f: Closure)
  {
    forall m, key :: Misreported(m, key, f) == 0
  }

  lemma TellsTruth(f: Closure)
    requires forall v :: f(v).1 == ApproxSize(f(v).0) - ApproxSize(v)
    ensures Truthful(f)
  {
    hide ApproxSize;
  }

  lemma {:induction false} ReversedBytes(s: seq<Bytes>, each: nat)
    ensures ItemBytes(Reversed(s), each) == ItemBytes(s, each)
  {
    if s != [] {
      ReversedBytes(s[..|s| - 1], each);
      ItemsAppend([s[|s| - 1]], Reversed(s[..|s| - 1]), each);
      OneItem(s[|s| - 1], each);
    }
  }

  lemma PushesTruthful(values: seq<Bytes>)
    ensures Truthful(Rpush(values)) && Truthful(Lpush(values))
  {
    hide ApproxSize, ItemBytes;
    forall v ensures Rpush(values)(v).1 == ApproxSize(Rpush(values)(v).0) - ApproxSize(v) {
      if v.List? {
        ItemsAppend(v.items, values, LIST_COST);
        GrowthIsApprox(v.items, v.items + values);
      }
    }
    forall v ensures Lpush(values)(v).1 == ApproxSize(Lpush(values)(v).0) - ApproxSize(v) {
      if v.List? {
        ReversedBytes(values, LIST_COST);
        ItemsAppend(Reversed(values), v.items, LIST_COST);
        GrowthIsApprox(v.items, Reversed(values) + v.items);
      }
    }
    TellsTruth(Rpush(values));
    TellsTruth(Lpush(values));
  }

  lemma PopTruthful(front: bool)
    ensures Truthful(PopEnd(front))
  {
    hide ApproxSize, ItemBytes;
    forall v ensures PopEnd(front)(v).1 == ApproxSize(PopEnd(front)(v).0) - ApproxSize(v) {
      if v.List? && v.items != [] {
        var at := if front then 0 else |v.items| - 1;
        ItemsAt(v.items, at, LIST_COST);
        GrowthIsApprox(v.items, DropAt(v.items, at));
      }
    }
    TellsTruth(PopEnd(front));
  }

  lemma SetTruthful(index: int, x: Bytes)
    ensures Truthful(Lset(index, x))
  {
    hide ApproxSize, ItemBytes;
    forall v ensures Lset(index, x)(v).1 == ApproxSize(Lset(index, x)(v).0) - ApproxSize(v) {
      if v.List? && 0 <= Index(|v.items|, index) < |v.items| {
        var at := Index(|v.items|, index);
        var r := v.items[at := x];
        ItemsAt(v.items, at, LIST_COST);
        ItemsAt(r, at, LIST_COST);
        assert r[..at] + r[at + 1..] == v.items[..at] + v.items[at + 1..];
        GrowthIsApprox(v.items, r);
      }
    }
    TellsTruth(Lset(index, x));
  }

  lemma TrimTruthful(start: int, stop: int)
    ensures Truthful(Ltrim(start, stop))
  {
    hide ApproxSize, ItemBytes, NormalizeRange;
    forall v ensures Ltrim(start, stop)(v).1 == ApproxSize(Ltrim(start, stop)(v).0) - ApproxSize(v) {
      if v.List? {
        var (s, e) := NormalizeRange(|v.items|, start, stop);
        var cut := if e < |v.items| then e else |v.items|;
        assert v.items == v.items[..s] + v.items[s..cut] + v.items[cut..];
        ItemsAppend(v.items[..s] + v.items[s..cut], v.items[cut..], LIST_COST);
        ItemsAppend(v.items[..s], v.items[s..cut], LIST_COST);
        GrowthIsApprox(v.items, v.items[s..cut]);
      }
    }
    TellsTruth(Ltrim(start, stop));
  }

  /** The bytes of `n` elements like `x`, negative when they go. */
  function Copies(n: int, x: Bytes, each: nat): (r: int) { n * (|x| + each) }

  lemma OneCopyLess(n: int, x: Bytes, each: nat)
    ensures Copies(n - 1, x, each) == Copies(n, x, each) - |x| - each
  {
  }

  /** Every element dropped is `x`, so their bytes are known without looking at them. */
  lemma {:induction false} DropFirstBytes(items: seq<Bytes>, x: Bytes, n: nat, each: nat)
    ensures Growth(items, DropFirst(items, x, n), each) == Copies(|DropFirst(items, x, n)| - |items|, x, each)
  {
    hide ItemBytes, Copies;
    assert Copies(0, x, each) == 0 by { NoCopies(x, each); }
    if items != [] && n > 0 {
      var rest := items[1..];
      assert items == [items[0]] + rest;
      ItemsAppend([items[0]], rest, each);
      OneItem(items[0], each);
      if items[0] == x {
        DropFirstBytes(rest, x, n - 1, each);
        OneCopyLess(|DropFirst(rest, x, n - 1)| - |rest|, x, each);
      } else {
        DropFirstBytes(rest, x, n, each);
        ItemsAppend([items[0]], DropFirst(rest, x, n), each);
      }
    }
  }

  lemma NoCopies(x: Bytes, each: nat)
    ensures Copies(0, x, each) == 0
  {
  }

  lemma {:induction false} DropLastBytes(items: seq<Bytes>, x: Bytes, n: nat, each: nat)
    ensures Growth(items, DropLast(items, x, n), each) == Copies(|DropLast(items, x, n)| - |items|, x, each)
  {
    hide ItemBytes, Copies;
    assert Copies(0, x, each) == 0 by { NoCopies(x, each); }
    if items != [] && n > 0 {
      var front, last := items[..|items| - 1], items[|items| - 1];
      assert items == front + [last];
      ItemsAppend(front, [last], each);
      OneItem(last, each);
      if last == x {
        DropLastBytes(front, x, n - 1, each);
        OneCopyLess(|DropLast(front, x, n - 1)| - |front|, x, each);
      } else {
        DropLastBytes(front, x, n, each);
        ItemsAppend(DropLast(front, x, n), [last], each);
      }
    }
  }

  lemma RemTruthful(count: int, x: Bytes)
    ensures Truthful(Lrem(count, x))
  {
    hide ApproxSize, ItemBytes, DropFirst, DropLast, Copies;
    forall v ensures Lrem(count, x)(v).1 == ApproxSize(Lrem(count, x)(v).0) - ApproxSize(v) {
      if v.List? {
        if count < 0 {
          DropLastBytes(v.items, x, -count, LIST_COST);
        } else {
          DropFirstBytes(v.items, x, if count == 0 then |v.items| else count, LIST_COST);
        }
        GrowthIsApprox(v.items, Dropped(v.items, count, x));
      }
    }
    TellsTruth(Lrem(count, x));
  }

  lemma {:induction false} AddedGrowth(members: seq<Bytes>, more: seq<Bytes>, each: nat)
    ensures AddedBytes(members, more, each) == Growth(members, Added(members, more), each)
  {
    hide ItemBytes;
    if more != [] {
      var front, x := more[..|more| - 1], more[|more| - 1];
      AddedGrowth(members, front, each);
      ItemsAppend(Added(members, front), [x], each);
      OneItem(x, each);
    }
  }

  /** Whether a member is there decides whether one is dropped. */
  lemma {:induction false} DropsOne(items: seq<Bytes>, x: Bytes)
    ensures |DropFirst(items, x, 1)| == if x in items then |items| - 1 else |items|
  {
    if items != [] && items[0] != x {
      DropsOne(items[1..], x);
    }
  }

  lemma {:induction false} RemovedGrowth(members: seq<Bytes>, gone: seq<Bytes>, each: nat)
    ensures RemovedBytes(members, gone, each) == Growth(members, Removed(members, gone), each)
  {
    hide ItemBytes, DropFirst, Copies;
    if gone != [] {
      var front, x := gone[..|gone| - 1], gone[|gone| - 1];
      RemovedGrowth(members, front, each);
      DropFirstBytes(Removed(members, front), x, 1, each);
      DropsOne(Removed(members, front), x);
      NoCopies(x, each);
      OneCopyLess(0, x, each);
    }
  }

  lemma SetsTruthful(more: seq<Bytes>, gone: seq<Bytes>)
    ensures Truthful(Sadd(more)) && Truthful(Srem(gone))
  {
    hide ApproxSize, Growth, Added, Removed, AddedBytes, RemovedBytes;
    forall v ensures Sadd(more)(v).1 == ApproxSize(Sadd(more)(v).0) - ApproxSize(v) {
      if v.Set? {
        AddedGrowth(v.members, more, SET_COST);
        GrowthIsApprox(v.members, Added(v.members, more));
      }
    }
    forall v ensures Srem(gone)(v).1 == ApproxSize(Srem(gone)(v).0) - ApproxSize(v) {
      if v.Set? {
        RemovedGrowth(v.members, gone, SET_COST);
        GrowthIsApprox(v.members, Removed(v.members, gone));
      }
    }
    TellsTruth(Sadd(more));
    TellsTruth(Srem(gone));
  }

  lemma SortedSetsTruthful(member: Bytes, gone: seq<Bytes>)
    ensures Truthful(Zadd(member)) && Truthful(Zrem(gone))
  {
    hide ApproxSize, Growth, Added, Removed, AddedBytes, RemovedBytes;
    forall v ensures Zadd(member)(v).1 == ApproxSize(Zadd(member)(v).0) - ApproxSize(v) {
      if v.SortedSet? {
        AddedGrowth(v.ranked, [member], SORTED_SET_COST);
        GrowthIsApprox(v.ranked, Added(v.ranked, [member]));
      }
    }
    forall v ensures Zrem(gone)(v).1 == ApproxSize(Zrem(gone)(v).0) - ApproxSize(v) {
      if v.SortedSet? {
        RemovedGrowth(v.ranked, gone, SORTED_SET_COST);
        GrowthIsApprox(v.ranked, Removed(v.ranked, gone));
      }
    }
    TellsTruth(Zadd(member));
    TellsTruth(Zrem(gone));
  }

  lemma {:induction false} FieldsAppend(a: Fields, b: Fields)
    ensures FieldBytes(a + b) == FieldBytes(a) + FieldBytes(b)
    decreases |b|
  {
    if b == [] {
      assert a + b == a;
    } else {
      FieldsAppend(a, b[..|b| - 1]);
      assert (a + b)[..|a + b| - 1] == a + b[..|b| - 1];
    }
  }

  lemma FieldsAt(fs: Fields, i: nat)
    requires i < |fs|
    ensures FieldBytes(fs) == FieldBytes(fs[..i] + fs[i + 1..]) + |fs[i].0| + |fs[i].1| + 16
  {
    var one := [fs[i]];
    assert fs == fs[..i] + (one + fs[i + 1..]) && one[..0] == [];
    FieldsAppend(fs[..i], one + fs[i + 1..]);
    FieldsAppend(one, fs[i + 1..]);
    FieldsAppend(fs[..i], fs[i + 1..]);
  }

  lemma HashSize(before: Fields, after: Fields)
    ensures ApproxSize(Hash(after)) - ApproxSize(Hash(before)) == FieldBytes(after) - FieldBytes(before)
  {
  }

  lemma HsetTruthful(f: Bytes, x: Bytes)
    ensures Truthful(Hset(f, x))
  {
    hide ApproxSize, FieldBytes;
    forall v ensures Hset(f, x)(v).1 == ApproxSize(Hset(f, x)(v).0) - ApproxSize(v) {
      if v.Hash? {
        var i, fs := FieldAt(v.fields, f), v.fields;
        var r := if i == |fs| then fs + [(f, x)] else fs[i := (f, x)];
        FieldsAt(r, i);
        if i == |fs| {
          assert r[..i] + r[i + 1..] == fs;
        } else {
          FieldsAt(fs, i);
          assert r[..i] + r[i + 1..] == fs[..i] + fs[i + 1..];
        }
        HashSize(fs, r);
      }
    }
    TellsTruth(Hset(f, x));
  }

  lemma {:induction false} UnsetBytes(fs: Fields, names: seq<Bytes>)
    ensures Unset(fs, names).1 == FieldBytes(Unset(fs, names).0) - FieldBytes(fs)
  {
    hide FieldBytes;
    if names != [] {
      UnsetBytes(fs, names[..|names| - 1]);
      var rest := Unset(fs, names[..|names| - 1]).0;
      var i := FieldAt(rest, names[|names| - 1]);
      if i < |rest| {
        FieldsAt(rest, i);
      }
    }
  }

  lemma HdelTruthful(names: seq<Bytes>)
    ensures Truthful(Hdel(names))
  {
    hide ApproxSize, FieldBytes, Unset;
    forall v ensures Hdel(names)(v).1 == ApproxSize(Hdel(names)(v).0) - ApproxSize(v) {
      if v.Hash? {
        UnsetBytes(v.fields, names);
        HashSize(v.fields, Unset(v.fields, names).0);
      }
    }
    TellsTruth(Hdel(names));
  }

  // ----- the range of LRANGE and LTRIM -----

  predicate Covers(r: (nat, nat), i: nat) { r.0 <= i < r.1 }

  /** The range holds exactly the positions from `start` to `stop` of a list, except when `stop` lies
      before its first element and `start` does not lie behind it: then the first element is in it. */
  lemma RangeIff(len: nat, start: int, stop: int)
    requires len > 0
    ensures (forall i: nat :: i < len ==> (Covers(NormalizeRange(len, start, stop), i) <==> Index(len, start) <= i <= Index(len, stop)))
       <==> !(Index(len, stop) < 0 && Index(len, start) <= 0)
  {
    var r := NormalizeRange(len, start, stop);
    if Index(len, stop) < 0 && Index(len, start) <= 0 {
      assert Covers(r, 0);
    }
  }

  /** LRANGE 0 -100 of three elements gives the first of them. */
  lemma RangeBeforeStart()
    ensures NormalizeRange(3, 0, -100) == (0, 1) && Index(3, -100) < 0
  {
  }

  // ----- what goes where -----

  lemma {:induction false} ReversedAt(s: seq<Bytes>, i: nat)
    requires i < |s|
    ensures Reversed(s)[i] == s[|s| - 1 - i]
  {
    if i > 0 {
      ReversedAt(s[..|s| - 1], i - 1);
    }
  }

  /** LPUSH puts its last argument first, and the elements that were there behind its first. */
  lemma LpushOrder(values: seq<Bytes>, items: seq<Bytes>, i: nat)
    requires i < |values| + |items|
    ensures Lpush(values)(List(items)).0.List? && |Lpush(values)(List(items)).0.items| == |values| + |items|
    ensures Lpush(values)(List(items)).0.items[i] == if i < |values| then values[|values| - 1 - i] else items[i - |values|]
  {
    if i < |values| {
      ReversedAt(values, i);
    }
  }

  /** RPUSH puts its arguments behind what was there, in order. */
  lemma RpushOrder(values: seq<Bytes>, items: seq<Bytes>, i: nat)
    requires i < |items| + |values|
    ensures Rpush(values)(List(items)).0.List? && |Rpush(values)(List(items)).0.items| == |items| + |values|
    ensures Rpush(values)(List(items)).0.items[i] == if i < |items| then items[i] else values[i - |items|]
  {
  }

  /** LTRIM keeps exactly the elements its range covers, in order. */
  lemma LtrimKeeps(items: seq<Bytes>, start: int, stop: int, i: nat)
    requires i < |items|
    ensures Ltrim(start, stop)(List(items)).0.List?
    ensures var range, r := NormalizeRange(|items|, start, stop), Ltrim(start, stop)(List(items)).0.items;
            && (Covers(range, i) ==> range.0 <= i < range.0 + |r| && r[i - range.0] == items[i])
            && (!Covers(range, i) ==> i < range.0 || i >= range.0 + |r|)
  {
    hide NormalizeRange;
  }

  /** LSET changes the element at its index, counted from the end when negative, and no other; an index
      outside the list changes nothing. */
  lemma LsetPlace(items: seq<Bytes>, index: int, x: Bytes, i: nat)
    requires i < |items|
    ensures Lset(index, x)(List(items)).0.List? && |Lset(index, x)(List(items)).0.items| == |items|
    ensures Lset(index, x)(List(items)).0.items[i] == if index == i || index == i - |items| then x else items[i]
  {
  }

  /** How often `x` occurs, and the list without it. */
  function Occurs(items: seq<Bytes>, x: Bytes): (n: nat)
  {
    if items == [] then 0 else Occurs(items[..|items| - 1], x) + if items[|items| - 1] == x then 1 else 0
  }

  function AllBut(items: seq<Bytes>, x: Bytes): (r: seq<Bytes>)
    ensures x !in r
  {
    if items == [] then []
    else AllBut(items[..|items| - 1], x) + if items[|items| - 1] == x then [] else [items[|items| - 1]]
  }

  lemma {:induction false} AllButCons(y: Bytes, items: seq<Bytes>, x: Bytes)
    ensures AllBut([y] + items, x) == (if y == x then [] else [y]) + AllBut(items, x)
    ensures Occurs([y] + items, x) == (if y == x then 1 else 0) + Occurs(items, x)
  {
    var all := [y] + items;
    if items == [] {
      assert all[..0] == [];
    } else {
      assert all[..|all| - 1] == [y] + items[..|items| - 1];
      AllButCons(y, items[..|items| - 1], x);
    }
  }

  /** LREM with a positive count takes exactly the first occurrences, and with a negative one exactly the
      last; 0 takes them all. */
  lemma {:induction false} FirstGo(a: seq<Bytes>, b: seq<Bytes>, x: Bytes)
    ensures DropFirst(a + b, x, Occurs(a, x)) == AllBut(a, x) + DropFirst(b, x, 0)
    decreases |a|
  {
    if a == [] {
      assert a + b == b;
    } else {
      var rest := a[1..];
      assert a == [a[0]] + rest && (a + b)[1..] == rest + b;
      AllButCons(a[0], rest, x);
      FirstGo(rest, b, x);
      if Occurs(a, x) == 0 {
        NoneThere(a, x);
        assert DropFirst(b, x, 0) == b;
      } else if a[0] != x {
        assert [a[0]] + (AllBut(rest, x) + DropFirst(b, x, 0)) == AllBut(a, x) + DropFirst(b, x, 0);
      }
    }
  }

  lemma {:induction false} NoneThere(items: seq<Bytes>, x: Bytes)
    requires Occurs(items, x) == 0
    ensures AllBut(items, x) == items
  {
    if items != [] {
      NoneThere(items[..|items| - 1], x);
    }
  }

  lemma {:induction false} LastGo(a: seq<Bytes>, b: seq<Bytes>, x: Bytes)
    ensures DropLast(a + b, x, Occurs(b, x)) == a + AllBut(b, x)
    decreases |b|
  {
    if b == [] {
      assert a + b == a;
    } else {
      var front, last := b[..|b| - 1], b[|b| - 1];
      assert (a + b)[..|a + b| - 1] == a + front;
      LastGo(a, front, x);
      if Occurs(b, x) == 0 {
        NoneThere(b, x);
      } else if last != x {
        assert (a + AllBut(front, x)) + [last] == a + AllBut(b, x);
      }
    }
  }

  lemma LremTakes(a: seq<Bytes>, b: seq<Bytes>, x: Bytes)
    ensures Occurs(a, x) > 0 ==> Dropped(a + b, Occurs(a, x), x) == AllBut(a, x) + b
    ensures Occurs(b, x) > 0 ==> Dropped(a + b, -(Occurs(b, x) as int), x) == a + AllBut(b, x)
    ensures Dropped(a, 0, x) == AllBut(a, x)
  {
    hide DropFirst, DropLast, AllBut, Occurs;
    FirstGo(a, b, x);
    NoneGo(b, x);
    LastGo(a, b, x);
    TakesAll(a, x, |a|);
  }

  lemma NoneGo(items: seq<Bytes>, x: Bytes)
    ensures DropFirst(items, x, 0) == items
  {
  }

  lemma {:induction false} TakesAll(items: seq<Bytes>, x: Bytes, n: nat)
    requires |items| <= n
    ensures DropFirst(items, x, n) == AllBut(items, x)
  {
    if items != [] {
      assert items == [items[0]] + items[1..];
      AllButCons(items[0], items[1..], x);
      TakesAll(items[1..], x, if items[0] == x then n - 1 else n);
    }
  }

  /** Taking the last element out of a collection empties it, and then its key goes. */
  lemma LastOneGoes(m: map<Bytes, Value>, key: Bytes, x: Bytes, y: Bytes, front: bool, f: Value -> Value)
    requires key in m
    requires
      || (m[key] == List([x]) && f(m[key]) == PopEnd(front)(m[key]).0)
      || (m[key] == Set([x]) && f(m[key]) == Srem([x])(m[key]).0)
      || (m[key] == SortedSet([x]) && f(m[key]) == Zrem([x])(m[key]).0)
      || (m[key] == Hash([(x, y)]) && f(m[key]) == Hdel([x])(m[key]).0)
    ensures Changed(m, key, f) == m - {key}
  {
    hide Removed, Unset, DropAt, RemovedBytes;
    NothingLeft(x, y);
  }

  lemma NothingLeft(x: Bytes, y: Bytes)
    ensures DropAt([x], 0) == [] && Removed([x], [x]) == [] && Unset([(x, y)], [x]).0 == []
  {
    var one: Fields := [(x, y)];
    assert [x][1..] == [] && [x][..0] == [] && DropFirst([x], x, 1) == DropFirst([], x, 0) == [];
    assert Unset(one, []) == (one, 0) && FieldAt(one, x) == 0 && one[..0] + one[1..] == [];
  }

  /** A string is never taken for an emptied collection. */
  lemma EmptyStringStays(m: map<Bytes, Value>, key: Bytes, f: Value -> Value)
    requires key in m && f(m[key]) == String([])
    ensures Changed(m, key, f) == m[key := String([])]
  {
  }

  // ----- the loops -----

  method PushBack(items: seq<Bytes>, values: seq<Bytes>) returns (r: seq<Bytes>, delta: int)
    ensures (List(r), delta) == Rpush(values)(List(items))
  {
    r, delta := items, 0;
    var i := 0;
    while i < |values|
      invariant 0 <= i <= |values| && r == items + values[..i] && delta == ItemBytes(values[..i], LIST_COST)
    {
      assert values[..i + 1][..i] == values[..i];
      r, delta, i := r + [values[i]], delta + |values[i]| + LIST_COST, i + 1;
    }
    assert values[..i] == values;
  }

  method PushFront(items: seq<Bytes>, values: seq<Bytes>) returns (r: seq<Bytes>, delta: int)
    ensures (List(r), delta) == Lpush(values)(List(items))
  {
    r, delta := items, 0;
    var i := 0;
    while i < |values|
      invariant 0 <= i <= |values| && r == Reversed(values[..i]) + items && delta == ItemBytes(values[..i], LIST_COST)
    {
      assert values[..i + 1][..i] == values[..i];
      r, delta, i := [values[i]] + r, delta + |values[i]| + LIST_COST, i + 1;
    }
    assert values[..i] == values;
  }

  /** The element popped is the one at that end. */
  method Pop(items: seq<Bytes>, front: bool) returns (r: seq<Bytes>, popped: Option<Bytes>, delta: int)
    ensures (List(r), delta) == PopEnd(front)(List(items))
    ensures popped.None? <==> items == []
    ensures popped.Some? ==> items == if front then [popped.value] + r else r + [popped.value]
  {
    if items == [] {
      return items, None, 0;
    }
    var at := if front then 0 else |items| - 1;
    r, popped := items[..at] + items[at + 1..], Some(items[at]);
    delta := -(|items[at]| + LIST_COST) as int;
  }

  /** The bytes of a run of elements, one subtraction at a time. */
  method LessItems(items: seq<Bytes>, delta0: int) returns (delta: int)
    ensures delta == delta0 - ItemBytes(items, LIST_COST)
  {
    delta := delta0;
    var i := 0;
    while i < |items|
      invariant 0 <= i <= |items| && delta == delta0 - ItemBytes(items[..i], LIST_COST)
    {
      assert items[..i + 1][..i] == items[..i];
      delta, i := delta - (|items[i]| + LIST_COST), i + 1;
    }
    assert items[..i] == items;
  }

  /** First the tail goes, then the head. */
  method Trim(items: seq<Bytes>, start: int, stop: int) returns (r: seq<Bytes>, delta: int)
    ensures (List(r), delta) == Ltrim(start, stop)(List(items))
  {
    hide ItemBytes, NormalizeRange;
    var (s, e) := NormalizeRange(|items|, start, stop);
    var cut := if e < |items| then e else |items|;
    delta := LessItems(items[cut..], 0);
    var kept := items[..cut];
    assert kept[..s] == items[..s];
    delta := LessItems(kept[..s], delta);
    r := kept[s..];
    assert r == items[s..cut];
  }

  lemma KeepFirst(items: seq<Bytes>, x: Bytes, n: nat)
    requires items != [] && (n == 0 || items[0] != x)
    ensures DropFirst(items, x, n) == [items[0]] + DropFirst(items[1..], x, n)
  {
    assert items == [items[0]] + items[1..];
    if n == 0 {
      assert DropFirst(items[1..], x, 0) == items[1..];
    }
  }

  /** LREM with a count of at least 0: `retain` with a counter. */
  method RemoveMatching(items: seq<Bytes>, count: nat, x: Bytes) returns (r: seq<Bytes>, removed: nat, delta: int)
    ensures (List(r), delta) == Lrem(count, x)(List(items)) && |r| + removed == |items|
  {
    hide ItemBytes, Copies;
    var remaining: nat := if count == 0 then |items| else count;
    ghost var limit := remaining;
    var i := 0;
    r, removed := [], 0;
    while i < |items|
      invariant 0 <= i <= |items| && |r| + removed == i
      invariant r + DropFirst(items[i..], x, remaining) == DropFirst(items, x, limit)
    {
      assert items[i..][1..] == items[i + 1..];
      if remaining > 0 && items[i] == x {
        remaining, removed := remaining - 1, removed + 1;
      } else {
        KeepFirst(items[i..], x, remaining);
        assert r + ([items[i]] + DropFirst(items[i + 1..], x, remaining)) == (r + [items[i]]) + DropFirst(items[i + 1..], x, remaining);
        r := r + [items[i]];
      }
      i := i + 1;
    }
    assert r + [] == r;
    delta := Copies(0 - removed, x, LIST_COST);
  }

  /** The list without the elements at those places, taken out one after another. */
  function DropEach(items: seq<Bytes>, places: seq<nat>): (r: seq<Bytes>)
  {
    if places == [] then items else DropAt(DropEach(items, places[..|places| - 1]), places[|places| - 1])
  }

  lemma DropEachSnoc(items: seq<Bytes>, places: seq<nat>, at: nat)
    ensures DropEach(items, places + [at]) == DropAt(DropEach(items, places), at)
  {
    assert (places + [at])[..|places|] == places;
  }

  lemma DropMiddle(a: seq<Bytes>, x: Bytes, b: seq<Bytes>)
    ensures DropAt(a + [x] + b, |a|) == a + b
  {
  }

  /** LREM with a count below 0: the places are found from the tail, then taken out highest first. */
  method RemoveFromTail(items: seq<Bytes>, count: nat, x: Bytes) returns (r: seq<Bytes>, removed: nat, delta: int)
    requires count > 0
    ensures (List(r), delta) == Lrem(0 - count, x)(List(items)) && |r| + removed == |items|
  {
    hide ItemBytes, Copies, DropAt, DropEach;
    var places := TailPlaces(items, count, x);
    removed := |places|;
    r := items;
    DropEachNone(items);
    var k := 0;
    while k < |places|
      invariant 0 <= k <= |places| && r == DropEach(items, places[..k])
    {
      DropEachSnoc(items, places[..k], places[k]);
      assert places[..k + 1] == places[..k] + [places[k]];
      if places[k] < |r| {
        DropAtIs(r, places[k]);
        r := r[..places[k]] + r[places[k] + 1..];
      } else {
        DropAtIs(r, places[k]);
      }
      k := k + 1;
    }
    assert places[..k] == places;
    delta := Copies(0 - removed, x, LIST_COST);
  }

  lemma DropEachNone(items: seq<Bytes>)
    ensures DropEach(items, []) == items
  {
  }

  lemma DropAtIs(items: seq<Bytes>, at: nat)
    ensures DropAt(items, at) == if at < |items| then items[..at] + items[at + 1..] else items
  {
  }

  method TailPlaces(items: seq<Bytes>, count: nat, x: Bytes) returns (places: seq<nat>)
    ensures DropEach(items, places) == DropLast(items, x, count) && |DropLast(items, x, count)| + |places| == |items|
  {
    hide DropAt, DropEach;
    places := [];
    var p, remaining := |items|, count;
    ghost var kept: seq<Bytes> := [];
    DropEachNone(items);
    assert items[..p] == items && items + [] == items && DropLast(items, x, count) + [] == DropLast(items, x, count);
    while p > 0 && remaining > 0
      invariant 0 <= p <= |items|
      invariant DropEach(items, places) == items[..p] + kept && |kept| + |places| + p == |items|
      invariant DropLast(items, x, count) == DropLast(items[..p], x, remaining) + kept
    {
      ghost var front := items[..p - 1];
      assert items[..p] == front + [items[p - 1]] && items[..p][..p - 1] == front;
      if items[p - 1] == x {
        DropEachSnoc(items, places, p - 1);
        DropMiddle(front, items[p - 1], kept);
        places, remaining := places + [p - 1], remaining - 1;
      } else {
        assert front + [items[p - 1]] + kept == front + ([items[p - 1]] + kept);
        assert DropLast(front, x, remaining) + [items[p - 1]] + kept == DropLast(front, x, remaining) + ([items[p - 1]] + kept);
        kept := [items[p - 1]] + kept;
      }
      p := p - 1;
    }
  }

  predicate Distinct(s: seq<Bytes>) { forall i, j :: 0 <= i < j < |s| ==> s[i] != s[j] }

  /** SADD, and ZADD with one member: the members are those there and those given, each once. */
  method Insert(members: seq<Bytes>, more: seq<Bytes>, each: nat) returns (r: seq<Bytes>, added: nat, delta: int)
    requires Distinct(members)
    ensures r == Added(members, more) && delta == AddedBytes(members, more, each)
    ensures Distinct(r) && (forall x :: x in r <==> x in members || x in more) && |r| == |members| + added
  {
    r, added, delta := members, 0, 0;
    var i := 0;
    while i < |more|
      invariant 0 <= i <= |more| && Distinct(r) && |r| == |members| + added
      invariant r == Added(members, more[..i]) && delta == AddedBytes(members, more[..i], each)
      invariant forall x :: x in r <==> x in members || x in more[..i]
    {
      assert more[..i + 1] == more[..i] + [more[i]] && more[..i + 1][..i] == more[..i];
      if more[i] !in r {
        r, added, delta := r + [more[i]], added + 1, delta + |more[i]| + each;
      }
      i := i + 1;
    }
    assert more[..i] == more;
  }

  /** Taking a member out of a list without repetition leaves exactly the others. */
  lemma {:induction false} OthersStay(s: seq<Bytes>, x: Bytes)
    requires Distinct(s)
    ensures var r := DropFirst(s, x, 1);
            Distinct(r) && forall y :: y in r <==> y in s && y != x
  {
    if s != [] {
      var rest := s[1..];
      assert forall i :: 0 < i < |s| ==> s[i] == rest[i - 1];
      assert s == [s[0]] + rest;
      assert s[0] !in rest;
      if s[0] == x {
        assert DropFirst(rest, x, 0) == rest;
      } else {
        OthersStay(rest, x);
      }
    }
  }

  /** SREM, SPOP and ZREM: the members are those there and not given. */
  method Erase(members: seq<Bytes>, gone: seq<Bytes>, each: nat) returns (r: seq<Bytes>, removed: nat, delta: int)
    requires Distinct(members)
    ensures r == Removed(members, gone) && delta == RemovedBytes(members, gone, each)
    ensures Distinct(r) && (forall x :: x in r <==> x in members && x !in gone) && |r| + removed == |members|
  {
    hide DropFirst;
    r, removed, delta := members, 0, 0;
    var i := 0;
    while i < |gone|
      invariant 0 <= i <= |gone| && Distinct(r) && |r| + removed == |members|
      invariant r == Removed(members, gone[..i]) && delta == RemovedBytes(members, gone[..i], each)
      invariant forall x :: x in r <==> x in members && x !in gone[..i]
    {
      assert gone[..i + 1] == gone[..i] + [gone[i]] && gone[..i + 1][..i] == gone[..i];
      OthersStay(r, gone[i]);
      DropsOne(r, gone[i]);
      if gone[i] in r {
        removed, delta := removed + 1, delta - (|gone[i]| + each);
      }
      r := DropFirst(r, gone[i], 1);
      i := i + 1;
    }
    assert gone[..i] == gone;
  }

  predicate DistinctFields(fs: Fields) { forall i, j :: 0 <= i < j < |fs| ==> fs[i].0 != fs[j].0 }

  predicate HasField(fs: Fields, f: Bytes, v: Bytes) { exists i :: 0 <= i < |fs| && fs[i] == (f, v) }

  /** HSET sets that field and no other. */
  lemma HsetSets(fs: Fields, f: Bytes, x: Bytes)
    requires DistinctFields(fs)
    ensures Hset(f, x)(Hash(fs)).0.Hash?
    ensures var r := Hset(f, x)(Hash(fs)).0.fields;
            && DistinctFields(r) && HasField(r, f, x) && (forall w :: HasField(r, f, w) ==> w == x)
            && forall g, w :: g != f ==> (HasField(r, g, w) <==> HasField(fs, g, w))
  {
    var r, i := Hset(f, x)(Hash(fs)).0.fields, FieldAt(fs, f);
    assert r[i] == (f, x) && forall j :: 0 <= j < |fs| && j != i ==> r[j] == fs[j];
    forall g, w | g != f ensures HasField(r, g, w) <==> HasField(fs, g, w) {
      SameField(fs, r, i, g, w);
    }
  }

  lemma SameField(fs: Fields, r: Fields, i: nat, g: Bytes, w: Bytes)
    requires i <= |fs| && |r| == (if i == |fs| then i + 1 else |fs|) && r[i].0 != g && (i < |fs| ==> fs[i].0 != g)
    requires forall j :: 0 <= j < |fs| && j != i ==> r[j] == fs[j]
    ensures HasField(r, g, w) <==> HasField(fs, g, w)
  {
    if HasField(fs, g, w) {
      var j :| 0 <= j < |fs| && fs[j] == (g, w);
      assert r[j] == (g, w);
    }
    if HasField(r, g, w) {
      var j :| 0 <= j < |r| && r[j] == (g, w);
      assert fs[j] == (g, w);
    }
  }

  /** HDEL leaves exactly the fields it was not given. */
  lemma {:induction false} HdelRemoves(fs: Fields, names: seq<Bytes>)
    requires DistinctFields(fs)
    ensures DistinctFields(Unset(fs, names).0)
    ensures forall g, w :: HasField(Unset(fs, names).0, g, w) <==> HasField(fs, g, w) && g !in names
  {
    hide HasField, DistinctFields;
    if names != [] {
      var front, f := names[..|names| - 1], names[|names| - 1];
      HdelRemoves(fs, front);
      var rest, r := Unset(fs, front).0, Unset(fs, names).0;
      var i := FieldAt(rest, f);
      assert names == front + [f];
      if i < |rest| {
        StillDistinct(rest, i);
      }
      forall g, w ensures HasField(r, g, w) <==> HasField(rest, g, w) && g != f {
        if i < |rest| {
          OtherFields(rest, i, g, w);
        } else {
          NoSuchField(rest, f, w);
        }
      }
    }
  }

  lemma NoSuchField(fs: Fields, f: Bytes, w: Bytes)
    requires FieldAt(fs, f) == |fs|
    ensures !HasField(fs, f, w)
  {
  }

  lemma StillDistinct(fs: Fields, i: nat)
    requires i < |fs| && DistinctFields(fs)
    ensures DistinctFields(fs[..i] + fs[i + 1..])
  {
    var r := fs[..i] + fs[i + 1..];
    forall a, b | 0 <= a < b < |r| ensures r[a].0 != r[b].0 {
      var p, q := if a < i then a else a + 1, if b < i then b else b + 1;
      assert r[a] == fs[p] && r[b] == fs[q];
    }
  }

  lemma OtherFields(fs: Fields, i: nat, g: Bytes, w: Bytes)
    requires i < |fs| && DistinctFields(fs)
    ensures HasField(fs[..i] + fs[i + 1..], g, w) <==> HasField(fs, g, w) && g != fs[i].0
  {
    var r := fs[..i] + fs[i + 1..];
    if HasField(fs, g, w) && g != fs[i].0 {
      var j :| 0 <= j < |fs| && fs[j] == (g, w);
      assert r[if j < i then j else j - 1] == (g, w);
    }
    if HasField(r, g, w) {
      var j :| 0 <= j < |r| && r[j] == (g, w);
      var p := if j < i then j else j + 1;
      assert fs[p] == (g, w) && fs[p].0 != fs[i].0;
    }
  }

  /** The loop over the names. */
  method EraseFields(fs: Fields, names: seq<Bytes>) returns (r: Fields, removed: nat, delta: int)
    ensures (Hash(r), delta) == Hdel(names)(Hash(fs)) && |r| + removed == |fs|
  {
    r, removed, delta := fs, 0, 0;
    var k := 0;
    while k < |names|
      invariant 0 <= k <= |names| && (r, delta) == Unset(fs, names[..k]) && |r| + removed == |fs|
    {
      assert names[..k + 1][..k] == names[..k];
      var i := FieldAt(r, names[k]);
      if i < |r| {
        delta := delta - (|names[k]| + |r[i].1| + 16);
        r, removed := r[..i] + r[i + 1..], removed + 1;
      }
      k := k + 1;
    }
    assert names[..k] == names;
  }
}
