// What `str::from_utf8` accepts, against the encoding of Unicode scalar values (Unicode 15, table 3-6).
module Unicode {
  import opened Bytes

  predicate Scalar(c: nat) { c < 0xD800 || 0xE000 <= c < 0x11_0000 }

  /** The low six bits of `n`, as a continuation byte. */
  function Six(n: nat): (b: byte) { 0x80 + n % 64 }

  function EncodeScalar(c: nat): (s: Bytes)
    requires Scalar(c)
    ensures 1 <= |s| <= 4
  {
    if c < 0x80 then [c]
    else if c < 0x800 then [0xC0 + c / 64, Six(c)]
    else if c < 0x1_0000 then [0xE0 + c / 4096, Six(c / 64), Six(c)]
    else [0xF0 + c / 262144, Six(c / 4096), Six(c / 64), Six(c)]
  }

  function EncodeScalars(cs: seq<nat>): (s: Bytes)
    requires forall i :: 0 <= i < |cs| ==> Scalar(cs[i])
  {
    if cs == [] then [] else EncodeScalar(cs[0]) + EncodeScalars(cs[1..])
  }

  lemma ReadsScalar(c: nat, rest: Bytes)
    requires Scalar(c)
    ensures CharLen(EncodeScalar(c) + rest) == |EncodeScalar(c)|
  {
    var s := EncodeScalar(c) + rest;
    if c < 0x80 {
      assert s[0] == c;
    } else if c < 0x800 {
      assert s[0] == 0xC0 + c / 64 && s[1] == Six(c);
    } else if c < 0x1_0000 {
      assert s[0] == 0xE0 + c / 4096 && s[1] == Six(c / 64) && s[2] == Six(c);
    } else {
      assert s[0] == 0xF0 + c / 262144 && s[1] == Six(c / 4096) && s[2] == Six(c / 64) && s[3] == Six(c);
    }
  }

  /** The scalar value that the leading character spells. */
  lemma SpellsScalar(s: Bytes) returns (c: nat)
    requires CharLen(s) > 0
    ensures Scalar(c) && EncodeScalar(c) == s[..CharLen(s)]
  {
    var n := CharLen(s);
    var lead: int := s[0];
    if n == 1 {
      c := lead;
    } else if n == 2 {
      var a, b := lead - 0xC0, s[1] as int - 0x80;
      c := a * 64 + b;
      assert s[..2] == [s[0], s[1]];
    } else if n == 3 {
      var a, b, e := lead - 0xE0, s[1] as int - 0x80, s[2] as int - 0x80;
      c := a * 4096 + b * 64 + e;
      ThreeBack(a, b, e);
      assert s[..3] == [s[0], s[1], s[2]];
    } else {
      var a, b, e, g := lead - 0xF0, s[1] as int - 0x80, s[2] as int - 0x80, s[3] as int - 0x80;
      c := a * 262144 + b * 4096 + e * 64 + g;
      FourBack(a, b, e, g);
      assert s[..4] == [s[0], s[1], s[2], s[3]];
    }
  }

  lemma ThreeBack(a: nat, b: nat, d: nat)
    requires b < 64 && d < 64
    ensures var c := a * 4096 + b * 64 + d;
            c / 4096 == a && c / 64 % 64 == b && c % 64 == d
  {
    assert (a * 4096 + b * 64 + d) / 64 == a * 64 + b;
  }

  lemma FourBack(a: nat, b: nat, d: nat, e: nat)
    requires b < 64 && d < 64 && e < 64
    ensures var c := a * 262144 + b * 4096 + d * 64 + e;
            c / 262144 == a && c / 4096 % 64 == b && c / 64 % 64 == d && c % 64 == e
  {
    ThreeBack(a * 64 + b, d, e);
    var c := a * 262144 + b * 4096 + d * 64 + e;
    assert c / 4096 == a * 64 + b;
  }

  lemma {:induction false} EncodedIsUtf8(cs: seq<nat>)
    requires forall i :: 0 <= i < |cs| ==> Scalar(cs[i])
    ensures Utf8(EncodeScalars(cs))
  {
    hide CharLen, EncodeScalar;
    if cs != [] {
      var head, tail := EncodeScalar(cs[0]), EncodeScalars(cs[1..]);
      ReadsScalar(cs[0], tail);
      EncodedIsUtf8(cs[1..]);
      assert (head + tail)[|head|..] == tail;
    }
  }

  lemma {:induction false} Utf8IsEncoded(s: Bytes) returns (cs: seq<nat>)
    requires Utf8(s)
    ensures (forall i :: 0 <= i < |cs| ==> Scalar(cs[i])) && EncodeScalars(cs) == s
    decreases |s|
  {
    hide CharLen, EncodeScalar;
    if s == [] {
      return [];
    }
    var c := SpellsScalar(s);
    var rest := Utf8IsEncoded(s[CharLen(s)..]);
    cs := [c] + rest;
    assert cs[1..] == rest && s[..CharLen(s)] + s[CharLen(s)..] == s;
  }

  ghost predicate Spelled(s: Bytes, cs: seq<nat>)
  {
    (forall i :: 0 <= i < |cs| ==> Scalar(cs[i])) && EncodeScalars(cs) == s
  }

  /** Text is well formed exactly when it spells some sequence of scalar values. */
  lemma Utf8Iff(s: Bytes)
    ensures Utf8(s) <==> exists cs :: Spelled(s, cs)
  {
    hide Utf8, EncodeScalars;
    if Utf8(s) {
      var cs := Utf8IsEncoded(s);
      assert Spelled(s, cs);
    }
    if cs :| Spelled(s, cs) {
      EncodedIsUtf8(cs);
    }
  }
}
