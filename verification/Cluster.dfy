// Slots, hash tags and the static topology. crates/server/src/cluster.rs:26-207; Redis Cluster
// Specification, "Key distribution model" and "Hash tags".
module Cluster {
  import opened Bytes
  import opened Crc

  const SLOT_COUNT: nat := 16384
  const LBRACE: byte := 123
  const RBRACE: byte := 125
  const HASH: byte := 35

  // ----- hash tags -----

  /** `hash_tag`. */
  function HashTag(key: Bytes): (t: Bytes)
  {
    match IndexOf(key, LBRACE)
    case None => key
    case Some(open) =>
      (match IndexOf(key[open + 1..], RBRACE)
       case None => key
       case Some(n) => if n == 0 then key else key[open + 1..open + 1 + n])
  }

  /** `key` is `before { tag } after`: the first brace opens, the next closing one ends a non-empty tag. */
  predicate TaggedBy(key: Bytes, before: Bytes, tag: Bytes, after: Bytes)
  {
    key == before + [LBRACE] + tag + [RBRACE] + after && LBRACE !in before && tag != [] && RBRACE !in tag
  }

  lemma IndexOfSplit(a: Bytes, b: byte, c: Bytes)
    requires b !in a
    ensures IndexOf(a + [b] + c, b) == Some(|a|)
  {
    var s := a + [b] + c;
    assert s[|a|] == b;
    assert forall j :: 0 <= j < |a| ==> s[j] == a[j];
  }

  /** A tagged key hashes by its tag. */
  lemma TaggedHash(key: Bytes, before: Bytes, tag: Bytes, after: Bytes)
    requires TaggedBy(key, before, tag, after)
    ensures HashTag(key) == tag
  {
    hide IndexOf;
    var rest := tag + [RBRACE] + after;
    assert key == before + [LBRACE] + rest;
    IndexOfSplit(before, LBRACE, rest);
    assert key[|before| + 1..] == rest && key[|before| + 1..|before| + 1 + |tag|] == tag;
    IndexOfSplit(tag, RBRACE, after);
  }

  /** Every key hashes by a tag it has, or by itself when it has none. */
  lemma HashTagIff(key: Bytes)
    ensures HashTag(key) == key || exists before, after :: TaggedBy(key, before, HashTag(key), after)
    ensures (exists before, tag, after :: TaggedBy(key, before, tag, after)) ==>
      exists before, after :: TaggedBy(key, before, HashTag(key), after)
  {
    hide IndexOf;
    if before, tag, after :| TaggedBy(key, before, tag, after) {
      TaggedHash(key, before, tag, after);
    }
    var open := IndexOf(key, LBRACE);
    if open.Some? {
      var rest := key[open.value + 1..];
      var close := IndexOf(rest, RBRACE);
      if close.Some? && close.value > 0 {
        assert key[open.value + 1..open.value + 1 + close.value] == rest[..close.value];
        Reassemble(key, open.value, close.value);
      }
    }
  }

  /** "{a}b" hashes by "a". */
  lemma BracesAreBraces()
    ensures HashTag([123, 97, 125, 98]) == [97] && HashTag([123, 125, 98]) == [123, 125, 98]
  {
    hide IndexOf;
    var key: Bytes := [123, 97, 125, 98];
    assert key == [] + [LBRACE] + [97] + [RBRACE] + [98];
    TaggedHash(key, [], [97], [98]);
    var none: Bytes := [123, 125, 98];
    IndexOfSplit([], LBRACE, [125, 98]);
    IndexOfSplit([], RBRACE, [98]);
    assert none == [] + [LBRACE] + [125, 98] && none[1..] == [125, 98] == [] + [RBRACE] + [98];
  }

  lemma Reassemble(key: Bytes, open: nat, n: nat)
    requires open + 1 + n < |key| && key[open] == LBRACE && key[open + 1 + n] == RBRACE && n > 0
    requires (forall j :: 0 <= j < open ==> key[j] != LBRACE) && RBRACE !in key[open + 1..open + 1 + n]
    ensures TaggedBy(key, key[..open], key[open + 1..open + 1 + n], key[open + 2 + n..])
  {
    var tag := key[open + 1..open + 1 + n];
    assert key == key[..open] + [LBRACE] + tag + [RBRACE] + key[open + 2 + n..];
  }

  /** A tag is its own tag, so a key and its tag always share a slot. */
  lemma TagSharesSlot(key: Bytes)
    ensures HashTag(HashTag(key)) == HashTag(key)
    ensures KeySlot(HashTag(key)) == KeySlot(key) < SLOT_COUNT
  {
    hide HashTag, Checksum, TaggedBy;
    var t := HashTag(key);
    HashTagIff(key);
    HashTagIff(t);
    if before, after :| TaggedBy(t, before, HashTag(t), after) {
      TagCloses(t, before, HashTag(t), after);
      if outer, rest :| TaggedBy(key, outer, t, rest) {
        TagCloses(key, outer, t, rest);
      }
    }
  }

  lemma TagCloses(key: Bytes, before: Bytes, tag: Bytes, after: Bytes)
    requires TaggedBy(key, before, tag, after)
    ensures RBRACE in key && RBRACE !in tag
  {
    assert key[|before| + 1 + |tag|] == RBRACE;
  }

  ghost function KeySlot(key: Bytes): (n: nat)
  {
    Checksum(HashTag(key)) % SLOT_COUNT
  }

  /** `key_slot`. */
  method SlotOf(key: Bytes) returns (slot: nat)
    ensures slot == KeySlot(key) < SLOT_COUNT
  {
    hide HashTag, Checksum;
    var crc := Crc16(HashTag(key));
    slot := crc % SLOT_COUNT;
  }

  // ----- the topology -----

  datatype Node = Node(id: Bytes, addr: Bytes, first: nat, last: nat)
  datatype Topology = Topology(nodes: seq<Node>, myself: nat)

  datatype Problem =
    | FieldCount | NotASlot | OutOfRange | BackwardRange | DuplicateId | DuplicateAddress
    | NoNodes | SlotZeroMissing | Overlap | Gap | LastSlotMissing | UnknownSelf
  datatype Result<T> = Ok(value: T) | Err(problem: Problem)

  predicate Covers(n: Node, slot: nat) { n.first <= slot <= n.last }

  predicate GoodRange(n: Node) { n.first <= n.last < SLOT_COUNT }

  /** `str::parse::<u32>`: an optional plus and digits. */
  function ParseU32(s: Bytes): (r: Option<nat>)
  {
    match ParseDigits(if s != [] && s[0] == PLUS then s[1..] else s)
    case None => None
    case Some(n) => if n < 0x1_0000_0000 then Some(n) else None
  }

  function ParseSlot(s: Bytes): (r: Result<nat>)
    ensures r.Ok? ==> r.value < SLOT_COUNT
  {
    match ParseU32(s)
    case None => Err(NotASlot)
    case Some(n) => if n >= SLOT_COUNT then Err(OutOfRange) else Ok(n)
  }

  /** A line, as its whitespace-separated fields; blank lines and comments hold nothing. */
  predicate Skipped(fields: seq<Bytes>)
  {
    fields == [] || (fields[0] != [] && fields[0][0] == HASH)
  }

  function ParseLine(fields: seq<Bytes>): (r: Result<Node>)
    ensures r.Ok? ==> GoodRange(r.value)
  {
    if |fields| != 4 then Err(FieldCount)
    else
      match ParseSlot(fields[2])
      case Err(e) => Err(e)
      case Ok(first) =>
        (match ParseSlot(fields[3])
         case Err(e) => Err(e)
         case Ok(last) => if first > last then Err(BackwardRange) else Ok(Node(fields[0], fields[1], first, last)))
  }

  /** The nodes the lines describe, when every line is well formed on its own. */
  function NodesOf(lines: seq<seq<Bytes>>): (r: Result<seq<Node>>)
    ensures r.Ok? ==> forall i :: 0 <= i < |r.value| ==> GoodRange(r.value[i])
  {
    if lines == [] then Ok([])
    else
      match NodesOf(lines[..|lines| - 1])
      case Err(e) => Err(e)
      case Ok(ns) =>
        var fields := lines[|lines| - 1];
        if Skipped(fields) then Ok(ns)
        else match ParseLine(fields)
          case Err(e) => Err(e)
          case Ok(n) => Ok(ns + [n])
  }

  /** A node's line: id, address, first and last slot. */
  function PrintNode(n: Node): (fields: seq<Bytes>)
  {
    [n.id, n.addr, Digits(n.first), Digits(n.last)]
  }

  function PrintNodes(ns: seq<Node>): (lines: seq<seq<Bytes>>)
  {
    if ns == [] then [] else PrintNodes(ns[..|ns| - 1]) + [PrintNode(ns[|ns| - 1])]
  }

  lemma PrintedSlot(n: nat)
    ensures n <= 16383 ==> ParseSlot(Digits(n)) == Ok(n)
    ensures n > 16383 ==> ParseSlot(Digits(n)).Err?
  {
    ParseDigitsOfDigits(n);
    assert IsDigit(Digits(n)[0]);
  }

  /** A printed line reads as its node, unless its id looks like a comment or its range is none. */
  lemma PrintedLine(n: Node, ns: seq<Node>, lines: seq<seq<Bytes>>)
    requires NodesOf(lines) == Ok(ns) && !(n.id != [] && n.id[0] == 35)
    ensures n.first <= n.last <= 16383 ==> NodesOf(lines + [PrintNode(n)]) == Ok(ns + [n])
    ensures !(n.first <= n.last <= 16383) ==> NodesOf(lines + [PrintNode(n)]).Err?
  {
    hide ParseSlot, Digits;
    PrintedSlot(n.first);
    PrintedSlot(n.last);
    assert (lines + [PrintNode(n)])[..|lines|] == lines;
  }

  /** Blank lines and comments add nothing; a line of any other number of fields is refused. */
  lemma OtherLine(fields: seq<Bytes>, lines: seq<seq<Bytes>>)
    requires NodesOf(lines).Ok?
    ensures fields == [] || (fields[0] != [] && fields[0][0] == 35) ==> NodesOf(lines + [fields]) == NodesOf(lines)
    ensures |fields| !in {0, 4} && !(fields[0] != [] && fields[0][0] == 35) ==> NodesOf(lines + [fields]) == Err(FieldCount)
  {
    hide ParseSlot;
    assert (lines + [fields])[..|lines|] == lines;
  }

  /** A printed topology reads back. */
  lemma {:induction false} PrintedNodes(ns: seq<Node>)
    requires forall i :: 0 <= i < |ns| ==> GoodRange(ns[i]) && !(ns[i].id != [] && ns[i].id[0] == 35)
    ensures NodesOf(PrintNodes(ns)) == Ok(ns)
  {
    hide NodesOf, PrintNode;
    if ns == [] {
      assert NodesOf([]) == Ok([]) by { NoLines(); }
    } else {
      var front, n := ns[..|ns| - 1], ns[|ns| - 1];
      PrintedNodes(front);
      assert GoodRange(n);
      PrintedLine(n, front, PrintNodes(front));
      assert front + [n] == ns;
    }
  }

  lemma NoLines()
    ensures NodesOf([]) == Ok([])
  {
  }

  predicate UniqueIds(ns: seq<Node>) { forall i, j :: 0 <= i < j < |ns| ==> ns[i].id != ns[j].id }
  predicate UniqueAddresses(ns: seq<Node>) { forall i, j :: 0 <= i < j < |ns| ==> ns[i].addr != ns[j].addr }

  predicate Owned(ns: seq<Node>, slot: nat) { exists i :: 0 <= i < |ns| && Covers(ns[i], slot) }

  /** Every slot lies in exactly one range. */
  ghost predicate Partition(ns: seq<Node>)
  {
    && (forall slot: nat :: slot < SLOT_COUNT ==> Owned(ns, slot))
    && (forall slot: nat, i, j :: 0 <= i < j < |ns| ==> !(Covers(ns[i], slot) && Covers(ns[j], slot)))
  }


  // ----- sorting by first slot -----

  predicate Sorted(ns: seq<Node>) { forall i, j :: 0 <= i < j < |ns| ==> ns[i].first <= ns[j].first }

  /** The place of `n` in a sorted list: after every node that does not start later. */
  function Insert(ns: seq<Node>, n: Node): (r: seq<Node>)
  {
    if ns == [] then [n]
    else if ns[|ns| - 1].first <= n.first then ns + [n]
    else Insert(ns[..|ns| - 1], n) + [ns[|ns| - 1]]
  }

  /** `sort_by_key(first_slot)`, which is stable. */
  function SortNodes(ns: seq<Node>): (r: seq<Node>)
  {
    if ns == [] then [] else Insert(SortNodes(ns[..|ns| - 1]), ns[|ns| - 1])
  }

  lemma {:induction false} InsertPermutes(ns: seq<Node>, n: Node)
    ensures multiset(Insert(ns, n)) == multiset(ns) + multiset{n}
  {
    if ns != [] {
      InsertPermutes(ns[..|ns| - 1], n);
      assert ns == ns[..|ns| - 1] + [ns[|ns| - 1]];
    }
  }

  lemma {:induction false} InsertSorts(ns: seq<Node>, n: Node)
    requires Sorted(ns)
    ensures Sorted(Insert(ns, n)) && forall i :: 0 <= i < |Insert(ns, n)| ==> Insert(ns, n)[i] in ns || Insert(ns, n)[i] == n
  {
    if ns != [] && ns[|ns| - 1].first > n.first {
      var front := ns[..|ns| - 1];
      InsertSorts(front, n);
      assert forall x :: x in front ==> x in ns && x.first <= ns[|ns| - 1].first;
    }
  }

  lemma {:induction false} SortNodesSorts(ns: seq<Node>)
    ensures Sorted(SortNodes(ns)) && multiset(SortNodes(ns)) == multiset(ns)
  {
    hide Insert, Sorted;
    if ns == [] {
      NothingSorted();
    } else {
      var front := ns[..|ns| - 1];
      SortNodesSorts(front);
      InsertSorts(SortNodes(front), ns[|ns| - 1]);
      InsertPermutes(SortNodes(front), ns[|ns| - 1]);
      assert ns == front + [ns[|ns| - 1]];
    }
  }

  lemma NothingSorted()
    ensures Sorted([])
  {
  }

  // ----- tiling -----

  predicate Tiles(ns: seq<Node>)
  {
    && ns != [] && ns[0].first == 0 && ns[|ns| - 1].last == SLOT_COUNT - 1
    && forall i :: 0 < i < |ns| ==> ns[i].first == ns[i - 1].last + 1
  }

  lemma {:induction false} TilesAscend(ns: seq<Node>, i: nat, j: nat)
    requires (forall k :: 0 < k < |ns| ==> ns[k].first > ns[k - 1].last) && i < j < |ns|
    requires forall k :: 0 <= k < |ns| ==> GoodRange(ns[k])
    ensures ns[i].last < ns[j].first
    decreases j
  {
    if i < j - 1 {
      TilesAscend(ns, i, j - 1);
    }
  }

  lemma {:induction false} TilesCover(ns: seq<Node>, n: nat, slot: nat) returns (i: nat)
    requires n < |ns| && ns[0].first == 0 && slot <= ns[n].last
    requires forall k :: 0 < k < |ns| ==> ns[k].first == ns[k - 1].last + 1
    ensures i <= n && Covers(ns[i], slot)
  {
    if n > 0 && slot < ns[n].first {
      i := TilesCover(ns, n - 1, slot);
    } else {
      i := n;
    }
  }

  lemma TilesPartition(ns: seq<Node>)
    requires Tiles(ns) && forall i :: 0 <= i < |ns| ==> GoodRange(ns[i])
    ensures Partition(ns)
  {
    forall slot: nat | slot < SLOT_COUNT ensures Owned(ns, slot) {
      var i := TilesCover(ns, |ns| - 1, slot);
    }
    forall slot: nat, i, j | 0 <= i < j < |ns| ensures !(Covers(ns[i], slot) && Covers(ns[j], slot)) {
      TilesAscend(ns, i, j);
    }
  }

  lemma NoOverlap(ns: seq<Node>)
    requires Sorted(ns) && Partition(ns) && forall i :: 0 <= i < |ns| ==> GoodRange(ns[i])
    ensures forall i :: 0 < i < |ns| ==> ns[i].first > ns[i - 1].last
  {
    forall i | 0 < i < |ns| ensures ns[i].first > ns[i - 1].last {
      assert Covers(ns[i], ns[i].first);
      assert ns[i].first <= ns[i - 1].last ==> Covers(ns[i - 1], ns[i].first);
    }
  }

  lemma NoGap(ns: seq<Node>, i: nat)
    requires Sorted(ns) && Partition(ns) && 0 < i < |ns| && forall i :: 0 <= i < |ns| ==> GoodRange(ns[i])
    ensures ns[i].first == ns[i - 1].last + 1
  {
    NoOverlap(ns);
    var next := ns[i - 1].last + 1;
    assert GoodRange(ns[i]) && Owned(ns, next);
    var k :| 0 <= k < |ns| && Covers(ns[k], next);
    if k < i - 1 {
      TilesAscend(ns, k, i - 1);
    }
  }

  /** Sorted ranges that partition the slots follow each other without gap or overlap. */
  lemma PartitionTiles(ns: seq<Node>)
    requires Sorted(ns) && Partition(ns) && forall i :: 0 <= i < |ns| ==> GoodRange(ns[i])
    ensures Tiles(ns)
  {
    assert Owned(ns, 0) && Owned(ns, SLOT_COUNT - 1);
    var zero :| 0 <= zero < |ns| && Covers(ns[zero], 0);
    NoOverlap(ns);
    forall i | 0 < i < |ns| ensures ns[i].first == ns[i - 1].last + 1 {
      NoGap(ns, i);
    }
    var k :| 0 <= k < |ns| && Covers(ns[k], SLOT_COUNT - 1);
    if k < |ns| - 1 {
      TilesAscend(ns, k, |ns| - 1);
    }
  }

  // ----- loading -----

  predicate HasId(ns: seq<Node>, id: Bytes) { exists i :: 0 <= i < |ns| && ns[i].id == id }
  predicate HasAddress(ns: seq<Node>, addr: Bytes) { exists i :: 0 <= i < |ns| && ns[i].addr == addr }

  /** One line on top of the nodes so far, with the errors in the order they are looked for. */
  function AddLine(ns: seq<Node>, fields: seq<Bytes>): (r: Result<seq<Node>>)
  {
    if Skipped(fields) then Ok(ns)
    else
      match ParseLine(fields)
      case Err(e) => Err(e)
      case Ok(n) =>
        if HasId(ns, n.id) then Err(DuplicateId)
        else if HasAddress(ns, n.addr) then Err(DuplicateAddress)
        else Ok(ns + [n])
  }

  function LoadNodes(lines: seq<seq<Bytes>>): (r: Result<seq<Node>>)
  {
    if lines == [] then Ok([])
    else
      match LoadNodes(lines[..|lines| - 1])
      case Err(e) => Err(e)
      case Ok(ns) => AddLine(ns, lines[|lines| - 1])
  }

  /** The first thing wrong between neighbours, if anything. */
  function Seam(ns: seq<Node>, i: nat): (r: Option<Problem>)
    decreases |ns| - i
  {
    if i == 0 || i >= |ns| then None
    else if ns[i].first <= ns[i - 1].last then Some(Overlap)
    else if ns[i].first != ns[i - 1].last + 1 then Some(Gap)
    else Seam(ns, i + 1)
  }

  function FindId(ns: seq<Node>, id: Bytes): (r: Option<nat>)
    ensures r.Some? ==> r.value < |ns| && ns[r.value].id == id
    ensures r.None? <==> !HasId(ns, id)
  {
    if ns == [] then None
    else if ns[0].id == id then Some(0)
    else
      match FindId(ns[1..], id)
      case None =>
        assert forall i :: 0 < i < |ns| ==> ns[i] == ns[1..][i - 1];
        None
      case Some(i) => Some(i + 1)
  }

  /** The checks on the whole list, in the order they are made. */
  function Validate(sorted: seq<Node>, id: Bytes): (r: Result<Topology>)
  {
    if sorted == [] then Err(NoNodes)
    else if sorted[0].first != 0 then Err(SlotZeroMissing)
    else if Seam(sorted, 1).Some? then Err(Seam(sorted, 1).value)
    else if sorted[|sorted| - 1].last != SLOT_COUNT - 1 then Err(LastSlotMissing)
    else match FindId(sorted, id)
      case None => Err(UnknownSelf)
      case Some(i) => Ok(Topology(sorted, i))
  }

  function Parsed(lines: seq<seq<Bytes>>, id: Bytes): (r: Result<Topology>)
  {
    match LoadNodes(lines)
    case Err(e) => Err(e)
    case Ok(ns) => Validate(SortNodes(ns), id)
  }

  method Contains(ns: seq<Node>, fields: seq<Bytes>) returns (id: bool, addr: bool)
    requires |fields| >= 2
    ensures id == HasId(ns, fields[0]) && addr == HasAddress(ns, fields[1])
  {
    id, addr := false, false;
    var i := 0;
    while i < |ns|
      invariant 0 <= i <= |ns| && id == HasId(ns[..i], fields[0]) && addr == HasAddress(ns[..i], fields[1])
    {
      assert ns[..i + 1] == ns[..i] + [ns[i]];
      assert forall j :: 0 <= j < i ==> ns[..i + 1][j] == ns[..i][j];
      assert ns[..i + 1][i] == ns[i];
      id, addr := id || ns[i].id == fields[0], addr || ns[i].addr == fields[1];
      i := i + 1;
    }
    assert ns[..i] == ns;
  }

  /** `ClusterConfig::parse`. */
  method Parse(lines: seq<seq<Bytes>>, id: Bytes) returns (r: Result<Topology>)
    ensures r == Parsed(lines, id)
  {
    hide SortNodes, ParseSlot, HasId, HasAddress, FindId;
    var nodes: seq<Node> := [];
    var k := 0;
    while k < |lines|
      invariant 0 <= k <= |lines| && LoadNodes(lines[..k]) == Ok(nodes)
    {
      var fields := lines[k];
      assert lines[..k + 1][..k] == lines[..k];
      ghost var step := AddLine(nodes, fields);
      assert LoadNodes(lines[..k + 1]) == step;
      if !Skipped(fields) {
        if |fields| != 4 {
          LoadFails(lines, k + 1);
          return Err(FieldCount);
        }
        var first := ParseSlot(fields[2]);
        if first.Err? {
          LoadFails(lines, k + 1);
          return Err(first.problem);
        }
        var last := ParseSlot(fields[3]);
        if last.Err? {
          LoadFails(lines, k + 1);
          return Err(last.problem);
        }
        if first.value > last.value {
          LoadFails(lines, k + 1);
          return Err(BackwardRange);
        }
        var sameId, sameAddr := Contains(nodes, fields);
        if sameId {
          LoadFails(lines, k + 1);
          return Err(DuplicateId);
        }
        if sameAddr {
          LoadFails(lines, k + 1);
          return Err(DuplicateAddress);
        }
        nodes := nodes + [Node(fields[0], fields[1], first.value, last.value)];
      }
      k := k + 1;
    }
    assert lines[..k] == lines;
    nodes := SortNodes(nodes);
    if nodes == [] {
      return Err(NoNodes);
    }
    if nodes[0].first != 0 {
      return Err(SlotZeroMissing);
    }
    var i := 1;
    while i < |nodes|
      invariant 1 <= i <= |nodes| && Seam(nodes, 1) == Seam(nodes, i)
    {
      if nodes[i].first <= nodes[i - 1].last {
        return Err(Overlap);
      }
      if nodes[i].first != nodes[i - 1].last + 1 {
        return Err(Gap);
      }
      i := i + 1;
    }
    if nodes[|nodes| - 1].last != SLOT_COUNT - 1 {
      return Err(LastSlotMissing);
    }
    var myself := FindId(nodes, id);
    r := if myself.None? then Err(UnknownSelf) else Ok(Topology(nodes, myself.value));
  }

  /** An error on a line is the whole file's error. */
  lemma {:induction false} LoadFails(lines: seq<seq<Bytes>>, k: nat)
    requires k <= |lines| && LoadNodes(lines[..k]).Err?
    ensures LoadNodes(lines) == LoadNodes(lines[..k])
    decreases |lines| - k
  {
    if k < |lines| {
      assert lines[..k + 1][..k] == lines[..k];
      LoadFails(lines, k + 1);
    } else {
      assert lines[..k] == lines;
    }
  }

  // ----- what a topology file must say -----

  lemma {:induction false} LoadNodesIff(lines: seq<seq<Bytes>>)
    ensures var ns := NodesOf(lines);
            && (LoadNodes(lines).Ok? <==> ns.Ok? && UniqueIds(ns.value) && UniqueAddresses(ns.value))
            && (LoadNodes(lines).Ok? ==> LoadNodes(lines) == ns)
  {
    hide ParseLine;
    if lines != [] {
      var front := lines[..|lines| - 1];
      LoadNodesIff(front);
      var ns, n := NodesOf(front), ParseLine(lines[|lines| - 1]);
      if ns.Ok? && n.Ok? && !Skipped(lines[|lines| - 1]) {
        UniqueSnoc(ns.value, n.value);
      }
    }
  }

  lemma UniqueSnoc(ns: seq<Node>, n: Node)
    ensures UniqueIds(ns + [n]) <==> UniqueIds(ns) && !HasId(ns, n.id)
    ensures UniqueAddresses(ns + [n]) <==> UniqueAddresses(ns) && !HasAddress(ns, n.addr)
  {
    var all := ns + [n];
    assert forall i :: 0 <= i < |ns| ==> all[i] == ns[i];
    assert all[|ns|] == n;
  }

  lemma {:induction false} SeamIff(ns: seq<Node>, i: nat)
    requires 1 <= i
    ensures Seam(ns, i).None? <==> forall j :: i <= j < |ns| ==> ns[j].first == ns[j - 1].last + 1
    decreases |ns| - i
  {
    if i < |ns| {
      SeamIff(ns, i + 1);
    }
  }

  /** Any order of the same nodes partitions the slots, or none does. */
  lemma PartitionPermutes(a: seq<Node>, b: seq<Node>)
    requires multiset(a) == multiset(b) && Partition(a) && forall i :: 0 <= i < |a| ==> GoodRange(a[i])
    ensures Partition(b)
  {
    assert forall x :: x in a <==> x in multiset(a);
    assert forall x :: x in b <==> x in multiset(b);
    forall slot: nat | slot < SLOT_COUNT ensures Owned(b, slot) {
      assert Owned(a, slot);
      var i :| 0 <= i < |a| && Covers(a[i], slot);
      assert a[i] in b;
    }
    forall slot: nat, i, j | 0 <= i < j < |b| ensures !(Covers(b[i], slot) && Covers(b[j], slot)) {
      if Covers(b[i], slot) && Covers(b[j], slot) {
        assert b[i] in a && b[j] in a;
        var x :| 0 <= x < |a| && a[x] == b[i];
        var y :| 0 <= y < |a| && a[y] == b[j];
        assert x == y;
        Repeated(b, i, j);
        Distinct(a, b[i]);
      }
    }
  }

  lemma Repeated(b: seq<Node>, i: nat, j: nat)
    requires i < j < |b| && b[i] == b[j]
    ensures multiset(b)[b[i]] >= 2
  {
    assert b == b[..j] + [b[j]] + b[j + 1..];
    assert b[i] in b[..j];
  }

  lemma {:induction false} Distinct(a: seq<Node>, x: Node)
    requires forall slot: nat, i, j :: 0 <= i < j < |a| ==> !(Covers(a[i], slot) && Covers(a[j], slot))
    requires GoodRange(x)
    ensures multiset(a)[x] <= 1
  {
    if a != [] {
      var n := |a| - 1;
      Distinct(a[..n], x);
      assert a == a[..n] + [a[n]];
      assert a[n] == x ==> Covers(a[n], x.first);
      assert forall i :: 0 <= i < n && a[..n][i] == x ==> Covers(a[i], x.first);
    }
  }

  lemma SameMembers(a: seq<Node>, b: seq<Node>, id: Bytes)
    requires multiset(a) == multiset(b)
    ensures HasId(a, id) <==> HasId(b, id)
  {
    assert forall x :: x in a <==> x in multiset(a);
    assert forall x :: x in b <==> x in multiset(b);
    if HasId(a, id) {
      var i :| 0 <= i < |a| && a[i].id == id;
      assert a[i] in b;
    }
    if HasId(b, id) {
      var i :| 0 <= i < |b| && b[i].id == id;
      assert b[i] in a;
    }
  }

  /** A file of well-formed lines is accepted exactly when ids and addresses are unique, the ranges
      partition the slots, and it names this node; the loaded map is then its nodes by first slot. */
  lemma ParseAcceptsIff(lines: seq<seq<Bytes>>, id: Bytes)
    ensures var ns := NodesOf(lines);
            && (Parsed(lines, id).Ok? <==>
                  ns.Ok? && UniqueIds(ns.value) && UniqueAddresses(ns.value) && Partition(ns.value) && HasId(ns.value, id))
            && (Parsed(lines, id).Ok? ==>
                  var t := Parsed(lines, id).value;
                  t.nodes == SortNodes(ns.value) && t.myself < |t.nodes| && t.nodes[t.myself].id == id && Partition(t.nodes))
  {
    hide NodesOf, LoadNodes, SortNodes, HasId, FindId, Partition, UniqueIds, UniqueAddresses;
    LoadNodesIff(lines);
    if LoadNodes(lines).Ok? {
      var ns := LoadNodes(lines).value;
      var sorted := SortNodes(ns);
      SortNodesSorts(ns);
      SortedRanges(ns);
      SeamIff(sorted, 1);
      SameMembers(ns, sorted, id);
      if Tiles(sorted) {
        TilesPartition(sorted);
        PartitionPermutes(sorted, ns);
      }
      if Partition(ns) {
        PartitionPermutes(ns, sorted);
        PartitionTiles(sorted);
      }
    }
  }

  lemma SortedRanges(ns: seq<Node>)
    requires forall i :: 0 <= i < |ns| ==> GoodRange(ns[i])
    ensures forall i :: 0 <= i < |SortNodes(ns)| ==> GoodRange(SortNodes(ns)[i])
  {
    SortNodesSorts(ns);
    var sorted := SortNodes(ns);
    assert forall x :: x in ns <==> x in multiset(ns);
    forall i | 0 <= i < |sorted| ensures GoodRange(sorted[i]) {
      assert sorted[i] in multiset(sorted);
    }
  }

  // ----- one owner, one redirect -----

  /** `owner_of`: a total search over a validated map. */
  method OwnerOf(t: Topology, slot: nat) returns (n: nat)
    requires Partition(t.nodes) && slot < SLOT_COUNT
    ensures n < |t.nodes| && Covers(t.nodes[n], slot)
    ensures forall i :: 0 <= i < |t.nodes| && Covers(t.nodes[i], slot) ==> i == n
  {
    assert Owned(t.nodes, slot);
    n := 0;
    while !(t.nodes[n].first <= slot <= t.nodes[n].last)
      invariant n < |t.nodes| && forall i :: 0 <= i < n ==> !Covers(t.nodes[i], slot)
      invariant exists i :: n <= i < |t.nodes| && Covers(t.nodes[i], slot)
      decreases |t.nodes| - n
    {
      n := n + 1;
    }
  }

  /** `owns`. */
  predicate Owns(t: Topology, slot: nat)
    requires t.myself < |t.nodes|
  {
    Covers(t.nodes[t.myself], slot)
  }

  /** All nodes load the same map from the same file, whatever their own name; the node a redirect
      names accepts the slot, and nobody else does. */
  lemma OneRedirect(lines: seq<seq<Bytes>>, id: Bytes, slot: nat, owner: nat)
    requires Parsed(lines, id).Ok? && slot < SLOT_COUNT
    requires owner < |Parsed(lines, id).value.nodes| && Covers(Parsed(lines, id).value.nodes[owner], slot)
    ensures var t := Parsed(lines, id).value;
            && Parsed(lines, t.nodes[owner].id) == Ok(Topology(t.nodes, owner))
            && Owns(Topology(t.nodes, owner), slot)
    ensures forall other :: Parsed(lines, other).Ok? ==>
      var o := Parsed(lines, other).value;
      o.nodes == Parsed(lines, id).value.nodes && o.myself < |o.nodes| && (Owns(o, slot) <==> other == o.nodes[owner].id)
  {
    hide Parsed, NodesOf, SortNodes, Partition, UniqueIds, UniqueAddresses;
    ParseAcceptsIff(lines, id);
    var ns, t := NodesOf(lines).value, Parsed(lines, id).value;
    SortNodesSorts(ns);
    UniquePermutes(ns, t.nodes);
    SameMembers(ns, t.nodes, t.nodes[owner].id);
    var name := t.nodes[owner].id;
    assert HasId(t.nodes, name);
    ParseAcceptsIff(lines, name);
    assert Parsed(lines, name).value.myself == owner by { SameIndex(t.nodes, Parsed(lines, name).value.myself, owner); }
    forall other | Parsed(lines, other).Ok?
      ensures var o := Parsed(lines, other).value;
              o.nodes == t.nodes && o.myself < |o.nodes| && (Owns(o, slot) <==> other == o.nodes[owner].id)
    {
      ParseAcceptsIff(lines, other);
      var o := Parsed(lines, other).value;
      if other == name {
        SameIndex(t.nodes, o.myself, owner);
      } else {
        OneCovers(t.nodes, o.myself, owner, slot);
      }
    }
  }

  lemma OneCovers(ns: seq<Node>, i: nat, j: nat, slot: nat)
    requires Partition(ns) && i < |ns| && j < |ns| && i != j && Covers(ns[j], slot)
    ensures !Covers(ns[i], slot)
  {
  }

  lemma SameIndex(ns: seq<Node>, i: nat, j: nat)
    requires UniqueIds(ns) && i < |ns| && j < |ns| && ns[i].id == ns[j].id
    ensures i == j
  {
  }

  /** Unique ids and addresses stay unique in any order. */
  lemma UniquePermutes(a: seq<Node>, b: seq<Node>)
    requires multiset(a) == multiset(b) && UniqueIds(a)
    ensures UniqueIds(b) && (UniqueAddresses(a) ==> UniqueAddresses(b))
  {
    assert forall x :: x in a <==> x in multiset(a);
    assert forall x :: x in b <==> x in multiset(b);
    forall i, j | 0 <= i < j < |b| ensures b[i].id != b[j].id && (UniqueAddresses(a) ==> b[i].addr != b[j].addr) {
      assert b[i] in a && b[j] in a;
      var x :| 0 <= x < |a| && a[x] == b[i];
      var y :| 0 <= y < |a| && a[y] == b[j];
      if x == y {
        Repeated(b, i, j);
        Once(a, b[i]);
      }
    }
  }

  lemma {:induction false} Once(a: seq<Node>, x: Node)
    requires UniqueIds(a)
    ensures multiset(a)[x] <= 1
  {
    if a != [] {
      var n := |a| - 1;
      Once(a[..n], x);
      assert a == a[..n] + [a[n]];
      assert forall i :: 0 <= i < n ==> a[..n][i].id != a[n].id;
    }
  }

  /** The order of the lines does not matter: files that list the same nodes load the same map. */
  lemma AnyLineOrder(lines: seq<seq<Bytes>>, lines': seq<seq<Bytes>>, id: Bytes)
    requires NodesOf(lines).Ok? && NodesOf(lines').Ok? && Parsed(lines, id).Ok?
    requires multiset(NodesOf(lines).value) == multiset(NodesOf(lines').value)
    ensures Parsed(lines', id).Ok? && Parsed(lines', id).value.nodes == Parsed(lines, id).value.nodes
  {
    hide Parsed, NodesOf, SortNodes, Partition, UniqueIds, UniqueAddresses;
    var a, b := NodesOf(lines).value, NodesOf(lines').value;
    ParseAcceptsIff(lines, id);
    UniquePermutes(a, b);
    PartitionPermutes(a, b);
    SameMembers(a, b, id);
    ParseAcceptsIff(lines', id);
    SortNodesSorts(a);
    SortNodesSorts(b);
    SortedRanges(a);
    SortedRanges(b);
    Strict(SortNodes(a));
    Strict(SortNodes(b));
    SameList(SortNodes(a), SortNodes(b));
  }

  predicate Ascending(ns: seq<Node>) { forall i, j :: 0 <= i < j < |ns| ==> ns[i].first < ns[j].first }

  lemma Strict(ns: seq<Node>)
    requires Sorted(ns) && Partition(ns) && forall i :: 0 <= i < |ns| ==> GoodRange(ns[i])
    ensures Ascending(ns)
  {
    forall i, j | 0 <= i < j < |ns| ensures ns[i].first < ns[j].first {
      assert Covers(ns[j], ns[j].first);
      assert ns[i].first == ns[j].first ==> Covers(ns[i], ns[j].first);
    }
  }

  lemma DropLast(ns: seq<Node>)
    requires ns != []
    ensures multiset(ns[..|ns| - 1]) == multiset(ns) - multiset{ns[|ns| - 1]}
  {
    assert ns == ns[..|ns| - 1] + [ns[|ns| - 1]];
  }

  lemma FrontAscends(ns: seq<Node>)
    requires Ascending(ns) && ns != []
    ensures Ascending(ns[..|ns| - 1])
  {
  }

  lemma LastIsLargest(a: seq<Node>, b: seq<Node>)
    requires Ascending(a) && Ascending(b) && multiset(a) == multiset(b) && a != [] && b != []
    ensures a[|a| - 1] == b[|b| - 1]
  {
    assert a[|a| - 1] in multiset(b) && b[|b| - 1] in multiset(a);
    var i :| 0 <= i < |a| && a[i] == b[|b| - 1];
    var j :| 0 <= j < |b| && b[j] == a[|a| - 1];
  }

  /** Ascending lists of the same nodes are the same list. */
  lemma {:induction false} SameList(a: seq<Node>, b: seq<Node>)
    requires Ascending(a) && Ascending(b) && multiset(a) == multiset(b)
    ensures a == b
  {
    hide Ascending;
    assert |multiset(a)| == |a| && |multiset(b)| == |b|;
    if a != [] {
      LastIsLargest(a, b);
      DropLast(a);
      DropLast(b);
      FrontAscends(a);
      FrontAscends(b);
      SameList(a[..|a| - 1], b[..|b| - 1]);
      assert a == a[..|a| - 1] + [a[|a| - 1]] && b == b[..|b| - 1] + [b[|b| - 1]];
    }
  }

  // ----- a refusal means what it says -----

  lemma SlotProblem(s: Bytes)
    ensures ParseSlot(s) == Err(NotASlot) <==> ParseU32(s).None?
    ensures ParseSlot(s) == Err(OutOfRange) <==> ParseU32(s).Some? && ParseU32(s).value > 16383
  {
  }

  /** What the line that stops the loading is guilty of. */
  ghost predicate Guilty(ns: seq<Node>, fields: seq<Bytes>, e: Problem)
  {
    match e
    case FieldCount => |fields| != 4
    case NotASlot => |fields| == 4 && (ParseU32(fields[2]).None? || ParseU32(fields[3]).None?)
    case OutOfRange => |fields| == 4 && (ParseSlot(fields[2]) == Err(OutOfRange) || ParseSlot(fields[3]) == Err(OutOfRange))
    case BackwardRange => |fields| == 4 && ParseSlot(fields[2]).Ok? && ParseSlot(fields[3]).Ok? && ParseSlot(fields[2]).value > ParseSlot(fields[3]).value
    case DuplicateId => |fields| == 4 && HasId(ns, fields[0])
    case DuplicateAddress => |fields| == 4 && HasAddress(ns, fields[1]) && !HasId(ns, fields[0])
    case _ => false
  }

  lemma LineGuilty(ns: seq<Node>, fields: seq<Bytes>)
    requires AddLine(ns, fields).Err?
    ensures !Skipped(fields) && Guilty(ns, fields, AddLine(ns, fields).problem)
  {
    hide ParseU32, HasId, HasAddress;
  }

  /** The first line that is guilty of something stops the loading, and is reported for it. */
  lemma {:induction false} LoadingStops(lines: seq<seq<Bytes>>) returns (k: nat)
    requires LoadNodes(lines).Err?
    ensures k < |lines| && LoadNodes(lines[..k]).Ok? && !Skipped(lines[k])
    ensures Guilty(LoadNodes(lines[..k]).value, lines[k], LoadNodes(lines).problem)
  {
    hide AddLine, Guilty;
    var front := lines[..|lines| - 1];
    if LoadNodes(front).Err? {
      k := LoadingStops(front);
      assert front[..k] == lines[..k];
    } else {
      k := |lines| - 1;
      LineGuilty(LoadNodes(front).value, lines[k]);
    }
  }

  lemma OwnedPermutes(a: seq<Node>, b: seq<Node>, slot: nat)
    requires multiset(a) == multiset(b) && Owned(a, slot)
    ensures Owned(b, slot)
  {
    assert forall x :: x in b <==> x in multiset(b);
    var i :| 0 <= i < |a| && Covers(a[i], slot);
    assert a[i] in multiset(a);
  }

  /** Some slot is owned by nobody. */
  ghost predicate Missing(ns: seq<Node>) { exists slot: nat :: slot < 16384 && !Owned(ns, slot) }

  lemma {:induction false} SeamProblem(ns: seq<Node>, i: nat) returns (j: nat)
    requires 1 <= i && Seam(ns, i).Some?
    ensures i <= j < |ns| && (forall k :: i <= k < j ==> ns[k].first == ns[k - 1].last + 1)
    ensures Seam(ns, i) == Some(Overlap) ==> ns[j].first <= ns[j - 1].last
    ensures Seam(ns, i) == Some(Gap) ==> ns[j].first > ns[j - 1].last + 1
    ensures Seam(ns, i) == Some(Overlap) || Seam(ns, i) == Some(Gap)
    decreases |ns| - i
  {
    j := i;
    if ns[i].first == ns[i - 1].last + 1 {
      j := SeamProblem(ns, i + 1);
    }
  }

  lemma GapIsMissing(ns: seq<Node>, j: nat)
    requires Sorted(ns) && 1 <= j < |ns| && ns[j].first > ns[j - 1].last + 1 && forall k :: 0 <= k < |ns| ==> GoodRange(ns[k])
    requires forall k :: 1 <= k < j ==> ns[k].first == ns[k - 1].last + 1
    ensures Missing(ns)
  {
    var slot := ns[j - 1].last + 1;
    assert GoodRange(ns[j]);
    forall k | 0 <= k < |ns| ensures !Covers(ns[k], slot) {
      if k < j - 1 {
        LastAscends(ns, k, j - 1);
      }
    }
    assert !Owned(ns, slot);
  }

  lemma {:induction false} LastAscends(ns: seq<Node>, i: nat, j: nat)
    requires i <= j < |ns| && (forall k :: 1 <= k <= j ==> ns[k].first == ns[k - 1].last + 1) && forall k :: 0 <= k < |ns| ==> GoodRange(ns[k])
    ensures ns[i].last <= ns[j].last
    decreases j
  {
    if i < j {
      LastAscends(ns, i, j - 1);
      assert GoodRange(ns[j]);
    }
  }

  /** The checks on the whole list: an empty file, an unowned first, last or other slot, two ranges that
      share a slot, and a good map without this node. */
  lemma ValidateMeans(ns: seq<Node>, id: Bytes)
    requires (forall i :: 0 <= i < |ns| ==> GoodRange(ns[i])) && Validate(SortNodes(ns), id).Err?
    ensures var e := Validate(SortNodes(ns), id).problem;
            match e
            case NoNodes => ns == []
            case SlotZeroMissing => !Owned(ns, 0)
            case LastSlotMissing => !Owned(ns, 16383)
            case Gap => Missing(ns)
            case Overlap => !Partition(ns)
            case UnknownSelf => Partition(ns) && !HasId(ns, id)
            case _ => false
  {
    hide Partition, FindId, HasId, Owned, SortNodes, Missing;
    var sorted := SortNodes(ns);
    SortNodesSorts(ns);
    SortedRanges(ns);
    SameMembers(ns, sorted, id);
    SeamIff(sorted, 1);
    if sorted == [] {
      assert |multiset(ns)| == |ns| && |multiset(sorted)| == 0;
    } else if sorted[0].first != 0 {
      if Owned(ns, 0) {
        OwnedPermutes(ns, sorted, 0);
        NobodyBelow(sorted);
      }
    } else if Seam(sorted, 1).Some? {
      SeamMeans(ns, sorted);
    } else if sorted[|sorted| - 1].last != SLOT_COUNT - 1 {
      if Owned(ns, 16383) {
        OwnedPermutes(ns, sorted, 16383);
        NobodyAbove(sorted);
      }
    } else {
      TilesPartition(sorted);
      PartitionPermutes(sorted, ns);
    }
  }

  lemma NobodyBelow(ns: seq<Node>)
    requires Sorted(ns) && ns != [] && ns[0].first != 0
    ensures !Owned(ns, 0)
  {
  }

  lemma NobodyAbove(ns: seq<Node>)
    requires ns != [] && ns[|ns| - 1].last != SLOT_COUNT - 1 && forall k :: 0 <= k < |ns| ==> GoodRange(ns[k])
    requires forall k :: 1 <= k < |ns| ==> ns[k].first == ns[k - 1].last + 1
    ensures !Owned(ns, 16383)
  {
    assert GoodRange(ns[|ns| - 1]);
    forall k | 0 <= k < |ns| ensures !Covers(ns[k], 16383) {
      LastAscends(ns, k, |ns| - 1);
    }
  }

  lemma SeamMeans(ns: seq<Node>, sorted: seq<Node>)
    requires multiset(ns) == multiset(sorted) && Sorted(sorted) && Seam(sorted, 1).Some?
    requires (forall i :: 0 <= i < |ns| ==> GoodRange(ns[i])) && forall i :: 0 <= i < |sorted| ==> GoodRange(sorted[i])
    ensures Seam(sorted, 1) == Some(Gap) ==> Missing(ns)
    ensures Seam(sorted, 1) == Some(Overlap) ==> !Partition(ns)
    ensures Seam(sorted, 1) == Some(Gap) || Seam(sorted, 1) == Some(Overlap)
  {
    hide Partition, Missing;
    var j := SeamProblem(sorted, 1);
    if Seam(sorted, 1) == Some(Gap) {
      GapIsMissing(sorted, j);
      StillMissing(sorted, ns);
    } else if Partition(ns) {
      PartitionPermutes(ns, sorted);
      NoOverlap(sorted);
    }
  }

  lemma StillMissing(a: seq<Node>, b: seq<Node>)
    requires multiset(a) == multiset(b) && Missing(a)
    ensures Missing(b)
  {
    hide Owned;
    var slot: nat :| slot < 16384 && !Owned(a, slot);
    if Owned(b, slot) {
      OwnedPermutes(b, a, slot);
    }
  }
}
