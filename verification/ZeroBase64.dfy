/**
 The zero-payload fast path of the gateway read check (cmd/namrbd-debug/main.go),
 against base64 as in section 4 of RFC 4648.
 */
module ZeroBase64 {
  import opened Words

  type Bytes = seq<Byte>

  /** The largest value of a 64-bit int. */
  const MAX_INT: int := TWO63 - 1

  // ------------------------------------------------------------- base64

  type Sextet = x: int | 0 <= x < 64

  /** Table 1 of RFC 4648. */
  function Symbol(x: Sextet): char {
    if x < 26 then (x + 'A' as int) as char
    else if x < 52 then (x - 26 + 'a' as int) as char
    else if x < 62 then (x - 52 + '0' as int) as char
    else if x == 62 then '+'
    else '/'
  }

  function Value(c: char): Option<Sextet> {
    var n := c as int;
    if 'A' <= c <= 'Z' then Some(n - 'A' as int)
    else if 'a' <= c <= 'z' then Some(n - 'a' as int + 26)
    else if '0' <= c <= '9' then Some(n - '0' as int + 52)
    else if c == '+' then Some(62)
    else if c == '/' then Some(63)
    else None
  }

  /** Groups of three bytes become four symbols; one or two bytes left over are padded. */
  function Encode(b: Bytes): string
    decreases |b|
  {
    if b == [] then ""
    else if |b| == 1 then [Symbol(b[0] / 4), Symbol(b[0] % 4 * 16), '=', '=']
    else if |b| == 2 then [Symbol(b[0] / 4), Symbol(b[0] % 4 * 16 + b[1] / 16), Symbol(b[1] % 16 * 4), '=']
    else
      [Symbol(b[0] / 4), Symbol(b[0] % 4 * 16 + b[1] / 16), Symbol(b[1] % 16 * 4 + b[2] / 64), Symbol(b[2] % 64)] + Encode(b[3..])
  }

  /** The library decoder skips line ends wherever they stand. */
  function Strip(s: string): string {
    if s == "" then ""
    else if s[0] == '\r' || s[0] == '\n' then Strip(s[1..])
    else [s[0]] + Strip(s[1..])
  }

  /** Four symbols at a time; padding only at the very end; left-over low bits are ignored. */
  function Groups(s: string): Option<Bytes>
    decreases |s|
  {
    if s == "" then Some([])
    else if |s| < 4 then None
    else
      var a, b := Value(s[0]), Value(s[1]);
      if a.None? || b.None? then None
      else if s[2] == '=' then
        if |s| == 4 && s[3] == '=' then Some([a.value * 4 + b.value / 16]) else None
      else
        var c := Value(s[2]);
        if c.None? then None
        else if s[3] == '=' then
          if |s| == 4 then Some([a.value * 4 + b.value / 16, b.value % 16 * 16 + c.value / 4]) else None
        else
          var d, rest := Value(s[3]), Groups(s[4..]);
          if d.None? || rest.None? then None
          else Some([a.value * 4 + b.value / 16, b.value % 16 * 16 + c.value / 4, c.value % 4 * 64 + d.value] + rest.value)
  }

  function Decode(s: string): Option<Bytes> {
    Groups(Strip(s))
  }

  lemma SymbolValue(x: Sextet)
    ensures Value(Symbol(x)) == Some(x) && Symbol(x) != '=' && Symbol(x) != '\r' && Symbol(x) != '\n'
  {
  }

  lemma {:induction false} NothingToStrip(b: Bytes)
    ensures Strip(Encode(b)) == Encode(b)
    decreases |b|
  {
    hide Symbol, Value;
    if 0 < |b| {
      var s := Encode(b);
      FourPlain(b);
      assert s == s[..4] + s[4..];
      StripPlain(s, 4);
      if |b| >= 3 {
        assert s[4..] == Encode(b[3..]);
        NothingToStrip(b[3..]);
      } else {
        assert s[4..] == "";
      }
    }
  }

  lemma FourPlain(b: Bytes)
    requires b != []
    ensures |Encode(b)| >= 4 && forall i :: 0 <= i < 4 ==> Encode(b)[i] != '\r' && Encode(b)[i] != '\n'
  {
    hide Value, Symbol;
    forall x: Sextet
      ensures Symbol(x) != '\r' && Symbol(x) != '\n'
    {
      SymbolValue(x);
    }
  }

  lemma {:induction false} StripPlain(s: string, n: nat)
    requires n <= |s| && forall i :: 0 <= i < n ==> s[i] != '\r' && s[i] != '\n'
    ensures Strip(s) == s[..n] + Strip(s[n..])
    decreases n
  {
    if n == 0 {
      assert s[0..] == s;
    } else {
      StripPlain(s[1..], n - 1);
      assert s[1..][n - 1..] == s[n..] && s[..n] == [s[0]] + s[1..][..n - 1];
    }
  }

  /** Bits split over two sextets come back together. */
  lemma Splice(a: Byte, b: Byte, c: Byte)
    ensures a / 4 * 4 + (a % 4 * 16 + b / 16) / 16 == a && (a % 4 * 16 + b / 16) % 16 == b / 16
    ensures b / 16 * 16 + (b % 16 * 4 + c / 64) / 4 == b && (b % 16 * 4 + c / 64) % 4 == c / 64
    ensures c / 64 * 64 + c % 64 == c
  {
  }

  /** How the decoder reads four symbols, with and without padding. */
  lemma ReadFour(x: Sextet, y: Sextet, z: Sextet, w: Sextet, rest: string)
    ensures Groups([Symbol(x), Symbol(y), '=', '=']) == Some([x * 4 + y / 16])
    ensures Groups([Symbol(x), Symbol(y), Symbol(z), '=']) == Some([x * 4 + y / 16, y % 16 * 16 + z / 4])
    ensures Groups(rest).Some? ==>
      Groups([Symbol(x), Symbol(y), Symbol(z), Symbol(w)] + rest)
        == Some([x * 4 + y / 16, y % 16 * 16 + z / 4, z % 4 * 64 + w] + Groups(rest).value)
  {
    hide Symbol, Value;
    SymbolValue(x);
    SymbolValue(y);
    SymbolValue(z);
    SymbolValue(w);
    assert ([Symbol(x), Symbol(y), Symbol(z), Symbol(w)] + rest)[4..] == rest;
  }

  /** Round trip: decoding an encoding gives the bytes back, for every byte string. */
  lemma {:induction false} GroupsOfEncode(b: Bytes)
    ensures Groups(Encode(b)) == Some(b)
    decreases |b|
  {
    hide Symbol, Value, Groups;
    if b == [] {
      NothingToRead();
    } else {
      var a, c, d := b[0], if |b| > 1 then b[1] else 0, if |b| > 2 then b[2] else 0;
      var x: Sextet, y: Sextet, z: Sextet, w: Sextet := a / 4, a % 4 * 16 + c / 16, c % 16 * 4 + d / 64, d % 64;
      var rest := if |b| > 2 then Encode(b[3..]) else "";
      ReadFour(x, y, z, w, rest);
      Splice(a, c, d);
      if |b| == 1 {
        assert b == [a];
      } else if |b| == 2 {
        assert b == [a, c];
      } else {
        GroupsOfEncode(b[3..]);
        assert b == [a, c, d] + b[3..];
      }
    }
  }

  lemma NothingToRead()
    ensures Groups("") == Some([])
  {
  }

  lemma RoundTrip(b: Bytes)
    ensures Decode(Encode(b)) == Some(b)
  {
    NothingToStrip(b);
    GroupsOfEncode(b);
  }

  lemma {:induction false} EncodeLength(b: Bytes)
    ensures |Encode(b)| == (|b| + 2) / 3 * 4
    decreases |b|
  {
    hide Symbol;
    if |b| >= 3 {
      EncodeLength(b[3..]);
    }
  }

  // ------------------------------------------------------------- the canonical string

  function Zeros(n: nat): Bytes {
    seq(n, _ => 0)
  }

  /** The source's lengths, in int arithmetic. */
  function EncodedLen(n: int): int {
    (n + 2) / 3 * 4
  }

  function Padding(n: nat): nat {
    match n % 3
    case 1 => 2
    case 2 => 1
    case _ => 0
  }

  function Repeat(c: char, n: nat): string {
    seq(n, _ => c)
  }

  /** Within the guard no intermediate value leaves the int range. */
  lemma NoOverflow(n: nat)
    requires n <= MAX_INT / 4 * 3
    ensures n + 2 <= MAX_INT && (n + 2) / 3 <= MAX_INT / 4 && Padding(n) <= EncodedLen(n) <= MAX_INT
  {
  }

  function BuiltString(n: nat): string {
    PaddingFits(n);
    Repeat('A', EncodedLen(n) - Padding(n)) + Repeat('=', Padding(n))
  }

  lemma PaddingFits(n: nat)
    ensures Padding(n) <= EncodedLen(n)
  {
  }

  /** The built string is the encoding of that many zero bytes. */
  lemma {:induction false} BuiltIsEncoding(n: nat)
    ensures BuiltString(n) == Encode(Zeros(n))
    decreases n
  {
    hide Encode, BuiltString, Zeros;
    if n < 3 {
      BuiltSmall(n);
    } else {
      BuiltIsEncoding(n - 3);
      BuiltStep(n);
      EncodeStep(n);
    }
  }

  lemma BuiltSmall(n: nat)
    requires n < 3
    ensures BuiltString(n) == Encode(Zeros(n))
  {
    assert Symbol(0) == 'A';
    assert n == 0 ==> Zeros(n) == [];
    assert n == 1 ==> Zeros(n) == [0] && BuiltString(n) == ['A', 'A', '=', '='];
    assert n == 2 ==> Zeros(n) == [0, 0] && BuiltString(n) == ['A', 'A', 'A', '='];
  }

  lemma EncodeStep(n: nat)
    requires n >= 3
    ensures Encode(Zeros(n)) == "AAAA" + Encode(Zeros(n - 3))
  {
    assert Zeros(n)[3..] == Zeros(n - 3);
    assert [Symbol(0), Symbol(0), Symbol(0), Symbol(0)] == "AAAA";
  }

  lemma BuiltStep(n: nat)
    requires n >= 3
    ensures BuiltString(n) == "AAAA" + BuiltString(n - 3)
  {
    assert EncodedLen(n) == EncodedLen(n - 3) + 4 && Padding(n) == Padding(n - 3);
  }

  /** gatewayCanonicalZeroBase64ForLength and its memo. */
  class ZeroStrings {
    var memo: map<U64, string>

    ghost predicate Valid()
      reads this
    {
      forall n :: n in memo ==> n <= MAX_INT / 4 * 3 && memo[n] == Encode(Zeros(n))
    }

    constructor ()
      ensures Valid() && memo == map[]
    {
      memo := map[];
    }

    /** Answers exactly within the guard, with the encoding of that many zero bytes, and only ever remembers such answers. */
    method CanonicalForLength(n: U64) returns (s: string, ok: bool)
      requires Valid()
      modifies this
      ensures Valid() && memo == if ok then old(memo)[n := s] else old(memo)
      ensures ok <==> n <= MAX_INT / 4 * 3
      ensures ok ==> s == Encode(Zeros(n))
    {
      hide Encode, BuiltString;
      if n > MAX_INT {
        return "", false;
      }
      if n > MAX_INT / 4 * 3 {
        return "", false;
      }
      if n in memo {
        assert memo == memo[n := memo[n]];
        return memo[n], true;
      }
      BuiltIsEncoding(n);
      s, ok := BuiltString(n), true;
      memo := memo[n := s];
    }

    /** The read check: the fast path, then decode and compare the length. */
    method DecodeReadOperation(data: string, expected: U64) returns (accepted: bool)
      requires Valid()
      modifies this
      ensures Valid()
      ensures accepted <==> DecodesTo(data, expected)
    {
      hide Encode;
      var encoded, ok := CanonicalForLength(expected);
      if ok && data == encoded {
        RoundTrip(Zeros(expected));
        return true;
      }
      var bytes := Decode(data);
      if bytes.None? {
        return false;
      }
      if expected > MAX_INT {
        return false;
      }
      accepted := |bytes.value| == expected;
    }
  }

  /** Acceptance by decoding alone: the fast path neither adds to it nor takes from it. */
  predicate DecodesTo(data: string, expected: U64) {
    var bytes := Decode(data);
    bytes.Some? && expected <= MAX_INT && |bytes.value| == expected
  }

  /** The canonical string is accepted for its own length and for no other. */
  lemma CanonicalAcceptedFor(n: nat, expected: U64)
    requires n <= MAX_INT / 4 * 3
    ensures DecodesTo(BuiltString(n), expected) <==> expected == n
  {
    hide Encode, BuiltString, Decode;
    BuiltIsEncoding(n);
    RoundTrip(Zeros(n));
  }
}
