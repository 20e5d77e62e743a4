// Bytes, decimal text and the small helpers every codec and command shares.
module Bytes {
  type byte = x: int | 0 <= x < 256
  type Bytes = seq<byte>

  datatype Option<+T> = None | Some(value: T)

  const CR: byte := 13
  const LF: byte := 10
  const PLUS: byte := 43
  const MINUS: byte := 45

  const I64_MIN: int := -0x8000_0000_0000_0000
  const I64_MAX: int := 0x7fff_ffff_ffff_ffff

  predicate IsDigit(b: byte) { 48 <= b <= 57 }

  /** A number's decimal digits, most significant first, no leading zero. */
  function Digits(n: nat): (s: Bytes)
    ensures s != [] && forall i :: 0 <= i < |s| ==> IsDigit(s[i])
  {
    if n < 10 then [48 + n] else Digits(n / 10) + [48 + n % 10]
  }

  /** `i64::to_string`. */
  function PrintInt(n: int): (s: Bytes)
    ensures s != [] && forall i :: 0 <= i < |s| ==> IsDigit(s[i]) || s[i] == MINUS
  {
    if n < 0 then [MINUS] + Digits(-n) else Digits(n)
  }

  /** The value of a non-empty run of digits; anything else is not a number. */
  function ParseDigits(s: Bytes): (r: Option<nat>)
  {
    if s == [] || !IsDigit(s[|s| - 1]) then None
    else if |s| == 1 then Some(s[0] - 48)
    else match ParseDigits(s[..|s| - 1])
      case None => None
      case Some(hi) => Some(10 * hi + s[|s| - 1] - 48)
  }

  /** `str::parse::<i64>`: an optional sign, at least one digit, and a value that fits. */
  function ParseI64(s: Bytes): (r: Option<int>)
    ensures r.Some? ==> I64_MIN <= r.value <= I64_MAX
  {
    if s == [] then None
    else
      var negative := s[0] == MINUS;
      var body := if negative || s[0] == PLUS then s[1..] else s;
      match ParseDigits(body)
      case None => None
      case Some(n) =>
        var v := if negative then 0 - n else n + 0;
        if I64_MIN <= v <= I64_MAX then Some(v) else None
  }

  lemma {:induction false} ParseDigitsOfDigits(n: nat)
    ensures ParseDigits(Digits(n)) == Some(n)
  {
    if n >= 10 {
      var hi := Digits(n / 10);
      ParseDigitsOfDigits(n / 10);
      assert Digits(n)[..|Digits(n)| - 1] == hi;
    }
  }

  /** Printing then parsing an `i64` gives it back. */
  lemma ParseOfPrint(n: int)
    requires I64_MIN <= n <= I64_MAX
    ensures ParseI64(PrintInt(n)) == Some(n)
  {
    if n < 0 {
      ParseDigitsOfDigits(-n);
      assert PrintInt(n)[1..] == Digits(-n);
    } else {
      ParseDigitsOfDigits(n);
    }
  }

  lemma DropOfAppend(a: Bytes, b: Bytes, n: nat)
    requires n <= |a|
    ensures (a + b)[n..] == a[n..] + b
  {
  }

  /** The number a byte string spells, most significant byte first. */
  function Number(s: Bytes): (n: nat)
  {
    if s == [] then 0 else 256 * Number(s[..|s| - 1]) + s[|s| - 1]
  }

  /** The lowest `k` bytes of a number, most significant first. */
  function BigEndian(n: nat, k: nat): (s: Bytes)
    ensures |s| == k
  {
    if k == 0 then [] else BigEndian(n / 256, k - 1) + [n % 256]
  }

  function Pow256(k: nat): (n: nat)
    ensures n > 0
  {
    if k == 0 then 1 else 256 * Pow256(k - 1)
  }

  lemma {:induction false} NumberOfBigEndian(n: nat, k: nat)
    requires n < Pow256(k)
    ensures Number(BigEndian(n, k)) == n
  {
    if k > 0 {
      NumberOfBigEndian(n / 256, k - 1);
      assert BigEndian(n, k)[..k - 1] == BigEndian(n / 256, k - 1);
    }
  }

  lemma {:induction false} BigEndianOfNumber(s: Bytes)
    ensures BigEndian(Number(s), |s|) == s && Number(s) < Pow256(|s|)
  {
    if s != [] {
      var front := s[..|s| - 1];
      BigEndianOfNumber(front);
      assert Number(s) / 256 == Number(front) && Number(s) % 256 == s[|s| - 1];
      assert s == front + [s[|s| - 1]];
    }
  }

  /** The first place a byte occurs: `iter().position`. */
  function IndexOf(s: Bytes, b: byte): (r: Option<nat>)
    ensures r.Some? ==> r.value < |s| && s[r.value] == b && forall j :: 0 <= j < r.value ==> s[j] != b
    ensures r.None? ==> b !in s
  {
    if s == [] then None
    else if s[0] == b then Some(0)
    else
      match IndexOf(s[1..], b)
      case None => None
      case Some(i) =>
        assert forall j :: 0 < j <= i ==> s[j] == s[1..][j - 1];
        Some(i + 1)
  }

  method Position(s: Bytes, b: byte) returns (r: Option<nat>)
    ensures r == IndexOf(s, b)
  {
    var i := 0;
    while i < |s|
      invariant 0 <= i <= |s|
      invariant IndexOf(s, b) == match IndexOf(s[i..], b) { case None => None case Some(j) => Some(i + j) }
    {
      if s[i] == b {
        return Some(i);
      }
      assert s[i..][1..] == s[i + 1..];
      i := i + 1;
    }
    r := None;
  }

  lemma SliceOfTake<T>(s: seq<T>, n: nat, a: nat, b: nat)
    requires a <= b <= n <= |s|
    ensures s[..n][a..b] == s[a..b]
  {
  }

  lemma DropOfTake<T>(s: seq<T>, n: nat, a: nat)
    requires a <= n <= |s|
    ensures s[..n][a..] == s[a..][..n - a]
  {
  }

  /** The ASCII half of `to_ascii_uppercase`. */
  function Upper(b: byte): (u: byte)
  {
    if 97 <= b <= 122 then b - 32 else b
  }

  const MAX_COMMAND_NAME_LEN: nat := 32

  /** A command name in upper case, unless it is too long or not ASCII. */
  function UpperName(raw: Bytes): (r: Option<Bytes>)
  {
    if |raw| > MAX_COMMAND_NAME_LEN || (exists i :: 0 <= i < |raw| && raw[i] >= 128) then None
    else Some(seq(|raw|, i requires 0 <= i < |raw| => Upper(raw[i])))
  }

  /** The name in any mixture of upper and lower case. */
  predicate Spells(raw: Bytes, name: Bytes)
  {
    |raw| == |name| && forall i :: 0 <= i < |raw| ==> raw[i] == name[i] || raw[i] as int == name[i] as int + 32
  }

  lemma SpelledName(raw: Bytes, name: Bytes)
    requires |name| <= MAX_COMMAND_NAME_LEN && (forall i :: 0 <= i < |name| ==> 65 <= name[i] <= 90) && Spells(raw, name)
    ensures UpperName(raw) == Some(name)
  {
    assert UpperName(raw).Some?;
    assert UpperName(raw).value == name;
  }

  /** A name is at most 32 bytes of ASCII. */
  lemma NameIff(raw: Bytes)
    ensures UpperName(raw).Some? <==> |raw| <= 32 && forall i :: 0 <= i < |raw| ==> raw[i] < 128
  {
  }

  // Well-formed UTF-8, as `str::from_utf8` accepts it (Unicode 15, table 3-7).
  predicate Continuation(s: Bytes, i: nat) { i < |s| && 0x80 <= s[i] <= 0xBF }

  /** How many bytes the leading character takes; 0 when there is no well-formed one. */
  function CharLen(s: Bytes): (n: nat)
    ensures n <= |s|
  {
    if s == [] then 0
    else if s[0] < 0x80 then 1
    else if 0xC2 <= s[0] <= 0xDF then (if Continuation(s, 1) then 2 else 0)
    else if 0xE0 <= s[0] <= 0xEF then
      (if Continuation(s, 1) && Continuation(s, 2)
          && (s[0] == 0xE0 ==> s[1] >= 0xA0) && (s[0] == 0xED ==> s[1] <= 0x9F) then 3 else 0)
    else if 0xF0 <= s[0] <= 0xF4 then
      (if Continuation(s, 1) && Continuation(s, 2) && Continuation(s, 3)
          && (s[0] == 0xF0 ==> s[1] >= 0x90) && (s[0] == 0xF4 ==> s[1] <= 0x8F) then 4 else 0)
    else 0
  }

  predicate Utf8(s: Bytes)
  {
    s == [] || (CharLen(s) > 0 && Utf8(s[CharLen(s)..]))
  }

  /** Decimal text is plain ASCII, so a length header is always valid UTF-8. */
  lemma {:induction false} AsciiIsUtf8(s: Bytes)
    requires forall i :: 0 <= i < |s| ==> s[i] < 128
    ensures Utf8(s)
  {
    if s != [] {
      AsciiIsUtf8(s[1..]);
    }
  }

  // ----- which text is a number -----

  lemma {:induction false} DigitsOnly(s: Bytes)
    requires ParseDigits(s).Some?
    ensures forall i :: 0 <= i < |s| ==> IsDigit(s[i])
  {
    if |s| > 1 {
      DigitsOnly(s[..|s| - 1]);
    }
  }

  lemma {:induction false} LeadingZero(s: Bytes)
    requires s != []
    ensures ParseDigits([48] + s) == ParseDigits(s)
  {
    var t := [48] + s;
    assert t[..|t| - 1] == [48] + s[..|s| - 1];
    if |s| == 1 {
      assert s[..0] == [] && ParseDigits([48]) == Some(0);
    } else {
      LeadingZero(s[..|s| - 1]);
    }
  }

  /** A sign in front is taken; what does not fit in 64 bits is refused. */
  lemma NumberForms(n: nat)
    ensures ParseI64(Digits(n)) == if n <= 9223372036854775807 then Some(n) else None
    ensures ParseI64([43] + Digits(n)) == if n <= 9223372036854775807 then Some(n) else None
    ensures ParseI64([45] + Digits(n)) == if n <= 9223372036854775808 then Some(-(n as int)) else None
  {
    hide Digits, ParseDigits;
    var d := Digits(n);
    ParseDigitsOfDigits(n);
    assert IsDigit(d[0]);
    assert ([43] + d)[1..] == d && ([45] + d)[1..] == d;
  }

  /** Nothing, and a bare sign, are no numbers. */
  lemma NoNumber()
    ensures ParseI64([]).None? && ParseI64([43]).None? && ParseI64([45]).None?
  {
  }

  /** Nor is text with anything but digits behind the sign. */
  lemma StrangeByte(s: Bytes, i: nat)
    requires i < |s| && !IsDigit(s[i]) && !(i == 0 && (s[i] == 43 || s[i] == 45))
    ensures ParseI64(s).None?
  {
    var signed := s[0] == MINUS || s[0] == PLUS;
    var body := if signed then s[1..] else s;
    assert body[if signed then i - 1 else i] == s[i];
    if ParseDigits(body).Some? {
      DigitsOnly(body);
    }
  }
}
