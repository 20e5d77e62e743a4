// What a request does to every key of the store, from its bytes alone.
// crates/server/src/dispatcher.rs:359-475, 1042-1086, crates/engine/src/commands/string.rs, keys.rs.
module Requests {
  import opened Bytes
  import opened Frames
  import opened Commands

  lemma RequestArgs(raw: Bytes, args: seq<Bytes>)
    ensures Args(Request(raw, args)) == Some([raw] + args) && ([raw] + args)[0] == raw && ([raw] + args)[1..] == args
  {
    assert Args(Request(raw, args)).value == [raw] + args;
  }

  /** The command a spelled request is read as. */
  lemma ReadAs(raw: Bytes, name: Bytes, args: seq<Bytes>)
    requires name in {SET, APPEND, INCR, DEL, MSET, RENAME} && Spells(raw, name)
    ensures UpperName(raw) == Some(name) && Args(Request(raw, args)) == Some([raw] + args)
    ensures ([raw] + args)[0] == raw && ([raw] + args)[1..] == args
  {
    hide UpperName, Args;
    SpelledName(raw, name);
    RequestArgs(raw, args);
  }

  /** SET key value, and words behind it that are no options. */
  lemma SetRequest(raw: Bytes, k: Bytes, v: Bytes, more: seq<Bytes>, s: Store, q: Bytes)
    requires Spells(raw, [83, 69, 84]) && forall i :: 0 <= i < |more| ==> !SetOption(more[i])
    ensures Lookup(Dispatch(Request(raw, [k, v] + more), s), q) == if q == k then Some(v) else Lookup(s, q)
  {
    hide UpperName, Args, After, Request, NamesWrite, SetOption;
    var f, args := Request(raw, [k, v] + more), [k, v] + more;
    ReadAs(raw, SET, args);
    assert forall i :: 2 <= i < |args| ==> args[i] == more[i - 2];
    assert CommandOf(f) == Some(Set(k, v));
    RunIsApply(f, s);
  }

  /** APPEND key suffix. */
  lemma AppendRequest(raw: Bytes, k: Bytes, v: Bytes, more: seq<Bytes>, s: Store, q: Bytes)
    requires Spells(raw, [65, 80, 80, 69, 78, 68])
    ensures Lookup(Dispatch(Request(raw, [k, v] + more), s), q) ==
      if q != k then Lookup(s, q) else if k in s then Some(s[k] + v) else Some(v)
  {
    hide UpperName, Args, After, Request, NamesWrite, SetOption;
    var f := Request(raw, [k, v] + more);
    ReadAs(raw, APPEND, [k, v] + more);
    assert CommandOf(f) == Some(Append(k, v));
    RunIsApply(f, s);
  }

  /** INCR key: one more than the number the key holds, 1 for a missing key; text that is no number, and
      the largest number, are left alone. */
  lemma IncrRequest(raw: Bytes, k: Bytes, more: seq<Bytes>, s: Store, q: Bytes)
    requires Spells(raw, [73, 78, 67, 82])
    ensures var r := Lookup(Dispatch(Request(raw, [k] + more), s), q);
            && (q != k ==> r == Lookup(s, q))
            && (q == k && k !in s ==> r == Some([49]))
            && (q == k && k in s && ParseI64(s[k]).Some? && ParseI64(s[k]).value < I64_MAX ==> r == Some(PrintInt(ParseI64(s[k]).value + 1)))
            && (q == k && k in s && (ParseI64(s[k]).None? || ParseI64(s[k]).value == I64_MAX) ==> r == Some(s[k]))
  {
    hide UpperName, Args, After, Request, NamesWrite, SetOption, ParseI64;
    var f := Request(raw, [k] + more);
    ReadAs(raw, INCR, [k] + more);
    assert CommandOf(f) == Some(Incr(k));
    RunIsApply(f, s);
    assert PrintInt(1) == [49];
  }

  /** DEL key ...: every key given goes, and no other. */
  lemma DelRequest(raw: Bytes, keys: seq<Bytes>, s: Store, q: Bytes)
    requires Spells(raw, [68, 69, 76])
    ensures Lookup(Dispatch(Request(raw, keys), s), q) == if q in keys then None else Lookup(s, q)
  {
    hide UpperName, Args, After, Request, NamesWrite, SetOption;
    var f := Request(raw, keys);
    ReadAs(raw, DEL, keys);
    if keys != [] {
      assert CommandOf(f) == Some(Del(keys));
      RunIsApply(f, s);
    }
  }

  predicate KeyBefore(pairs: seq<Bytes>, from: nat, n: nat, q: Bytes)
    requires 2 * n <= |pairs|
  {
    exists j :: from <= j < n && pairs[2 * j] == q
  }

  lemma {:induction false} PairsKeep(pairs: seq<Bytes>, s: Store, q: Bytes, n: nat)
    requires 2 * n <= |pairs| && !KeyBefore(pairs, 0, n, q)
    ensures Lookup(SetPairs(s, pairs[..2 * n]), q) == Lookup(s, q)
  {
    hide SetPairs;
    if n == 0 {
      NoPairs(pairs, s);
    } else {
      assert !KeyBefore(pairs, 0, n - 1, q) && pairs[2 * (n - 1)] != q;
      PairsKeep(pairs, s, q, n - 1);
      SetPairsSnoc(s, pairs, n - 1);
    }
  }

  lemma NoPairs(pairs: seq<Bytes>, s: Store)
    ensures SetPairs(s, pairs[..0]) == s
  {
  }

  lemma {:induction false} PairsSet(pairs: seq<Bytes>, s: Store, i: nat, n: nat)
    requires i < n && 2 * n <= |pairs| && !KeyBefore(pairs, i + 1, n, pairs[2 * i])
    ensures Lookup(SetPairs(s, pairs[..2 * n]), pairs[2 * i]) == Some(pairs[2 * i + 1])
  {
    hide SetPairs;
    SetPairsSnoc(s, pairs, n - 1);
    if i < n - 1 {
      assert !KeyBefore(pairs, i + 1, n - 1, pairs[2 * i]) && pairs[2 * (n - 1)] != pairs[2 * i];
      PairsSet(pairs, s, i, n - 1);
    }
  }

  /** MSET key value ...: a key holds the last value given for it. */
  lemma MSetRequest(raw: Bytes, pairs: seq<Bytes>, s: Store, i: nat)
    requires Spells(raw, [77, 83, 69, 84]) && |pairs| % 2 == 0 && 2 * i < |pairs|
    requires !KeyBefore(pairs, i + 1, |pairs| / 2, pairs[2 * i])
    ensures Lookup(Dispatch(Request(raw, pairs), s), pairs[2 * i]) == Some(pairs[2 * i + 1])
  {
    hide KeyBefore, SetPairs, Dispatch;
    MSetRead(raw, pairs, s);
    PairsSet(pairs, s, i, |pairs| / 2);
  }

  /** Every other key keeps what it holds, and an odd number of arguments changes nothing. */
  lemma MSetKeeps(raw: Bytes, pairs: seq<Bytes>, s: Store, q: Bytes)
    requires Spells(raw, [77, 83, 69, 84]) && (|pairs| % 2 == 0 ==> !KeyBefore(pairs, 0, |pairs| / 2, q))
    ensures Lookup(Dispatch(Request(raw, pairs), s), q) == Lookup(s, q)
  {
    hide KeyBefore, SetPairs, Dispatch;
    MSetRead(raw, pairs, s);
    if |pairs| % 2 == 0 {
      PairsKeep(pairs, s, q, |pairs| / 2);
    }
  }

  lemma MSetRead(raw: Bytes, pairs: seq<Bytes>, s: Store)
    requires Spells(raw, MSET)
    ensures Dispatch(Request(raw, pairs), s) == if |pairs| % 2 == 0 then SetPairs(s, pairs[..2 * (|pairs| / 2)]) else s
  {
    hide UpperName, Args, After, Request, NamesWrite, SetOption;
    var f := Request(raw, pairs);
    ReadAs(raw, MSET, pairs);
    if |pairs| % 2 == 0 {
      assert pairs[..2 * (|pairs| / 2)] == pairs;
      if pairs != [] {
        RunIsApply(f, s);
      }
    }
  }

  /** RENAME from to: the value moves; a missing key is refused. */
  lemma RenameRequest(raw: Bytes, a: Bytes, b: Bytes, more: seq<Bytes>, s: Store, q: Bytes)
    requires Spells(raw, [82, 69, 78, 65, 77, 69])
    ensures Lookup(Dispatch(Request(raw, [a, b] + more), s), q) ==
      if a !in s || a == b then Lookup(s, q) else if q == b then Some(s[a]) else if q == a then None else Lookup(s, q)
  {
    hide UpperName, Args, After, Request, NamesWrite, SetOption;
    var f := Request(raw, [a, b] + more);
    ReadAs(raw, RENAME, [a, b] + more);
    assert CommandOf(f) == Some(Rename(a, b));
    RunIsApply(f, s);
  }

  /** Too few arguments: nothing changes. */
  lemma RefusedRequest(raw: Bytes, name: Bytes, args: seq<Bytes>, s: Store)
    requires Spells(raw, name)
    requires (name in {INCR, DEL} && args == []) || (name in {SET, APPEND, MSET, RENAME} && |args| < 2)
    ensures Dispatch(Request(raw, args), s) == s
  {
    hide UpperName, Args, After, Request, NamesWrite, SetOption;
    ReadAs(raw, name, args);
    assert SET[0] == 83 && DEL[0] == 68 && INCR[0] == 73 && MSET[0] == 77 && APPEND[0] == 65 && RENAME[0] == 82;
  }

  /** Nor when the request is empty, or something in it is no string. */
  lemma NoRequest(f: Frame, s: Store)
    requires !f.Array? || f.items == [] || exists i :: 0 <= i < |f.items| && !f.items[i].Bulk?
    ensures Dispatch(f, s) == s
  {
    hide UpperName, After, NamesWrite, SetOption;
  }
}
