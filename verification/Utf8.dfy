/** The encoding of RFC 3629, section 3, of strings of Unicode scalar values. */
module Utf8 {
  import opened Wrappers

  type byte = x: int | 0 <= x < 256

  function EncodeChar(c: char): (r: seq<byte>)
    ensures 1 <= |r| <= 4
  {
    var n := c as int;
    if n < 0x80 then [n]
    else if n < 0x800 then [0xC0 + n / 64, 0x80 + n % 64]
    else if n < 0x10000 then [0xE0 + n / 64 / 64, 0x80 + n / 64 % 64, 0x80 + n % 64]
    else [0xF0 + n / 64 / 64 / 64, 0x80 + n / 64 / 64 % 64, 0x80 + n / 64 % 64, 0x80 + n % 64]
  }

  function Encode(s: string): seq<byte> {
    if s == "" then [] else EncodeChar(s[0]) + Encode(s[1..])
  }

  /** The length of an encoded character shows in its first byte. */
  function LengthFrom(first: byte): nat {
    if first < 0x80 then 1 else if first < 0xE0 then 2 else if first < 0xF0 then 3 else 4
  }

  /** The scalar value of an encoded character. */
  function Scalar(r: seq<byte>): int
    requires 1 <= |r| <= 4
  {
    match |r|
    case 1 => r[0]
    case 2 => (r[0] as int - 0xC0) * 64 + (r[1] as int - 0x80)
    case 3 => (r[0] as int - 0xE0) * 4096 + (r[1] as int - 0x80) * 64 + (r[2] as int - 0x80)
    case _ => (r[0] as int - 0xF0) * 262144 + (r[1] as int - 0x80) * 4096 + (r[2] as int - 0x80) * 64 + (r[3] as int - 0x80)
  }

  lemma EncodeCharIs(c: char)
    ensures LengthFrom(EncodeChar(c)[0]) == |EncodeChar(c)| && Scalar(EncodeChar(c)) == c as int
  {}

  /** The table of RFC 3629, section 3: how many bytes, which lead byte, which continuation bytes, and the scalar
      value their payloads make up. */
  lemma EncodeCharTable(c: char)
    ensures var n, r := c as int, EncodeChar(c);
            && (n <= 0x7F ==> |r| == 1 && r[0] == n)
            && (0x80 <= n <= 0x7FF ==>
                  |r| == 2 && 0xC0 <= r[0] <= 0xDF && Continuation(r[1]) && n == (r[0] as int - 0xC0) * 0x40 + (r[1] as int - 0x80))
            && (0x800 <= n <= 0xFFFF ==>
                  |r| == 3 && 0xE0 <= r[0] <= 0xEF && Continuation(r[1]) && Continuation(r[2])
                  && n == (r[0] as int - 0xE0) * 0x1000 + (r[1] as int - 0x80) * 0x40 + (r[2] as int - 0x80))
            && (0x10000 <= n ==>
                  |r| == 4 && 0xF0 <= r[0] <= 0xF4 && Continuation(r[1]) && Continuation(r[2]) && Continuation(r[3])
                  && n == (r[0] as int - 0xF0) * 0x40000 + (r[1] as int - 0x80) * 0x1000 + (r[2] as int - 0x80) * 0x40 + (r[3] as int - 0x80))
  {}

  predicate Continuation(b: byte) { 0x80 <= b <= 0xBF }

  /** No character's encoding begins another's. */
  lemma CharsPrefixFree(c: char, d: char, s: seq<byte>, t: seq<byte>)
    requires EncodeChar(c) + s <= EncodeChar(d) + t
    ensures c == d && s <= t
  {
    hide EncodeChar, LengthFrom, Scalar;
    EncodeCharIs(c);
    EncodeCharIs(d);
    var a, b := EncodeChar(c), EncodeChar(d);
    assert (a + s)[0] == a[0] && (b + t)[0] == b[0];
    assert a == (a + s)[..|a|] && b == (b + t)[..|b|];
    assert a == b;
    assert s == (a + s)[|a|..] && t == (b + t)[|b|..];
  }

  /** One string begins another exactly when its bytes do. */
  lemma {:induction false} EncodePrefix(s: string, t: string)
    ensures Encode(s) <= Encode(t) <==> s <= t
  {
    if s == "" {
    } else if t == "" {
      assert |Encode(s)| > 0;
    } else {
      EncodePrefix(s[1..], t[1..]);
      if Encode(s) <= Encode(t) {
        CharsPrefixFree(s[0], t[0], Encode(s[1..]), Encode(t[1..]));
        assert s == [s[0]] + s[1..] && t == [t[0]] + t[1..];
      }
      if s <= t {
        assert s[0] == t[0] && s[1..] <= t[1..];
      }
    }
  }

  predicate IsScalar(n: int) { 0 <= n < 0xD800 || 0xE000 <= n < 0x11_0000 }

  /** `None` for bytes that are not an encoding. */
  function Decode(k: seq<byte>): Option<string> {
    if k == [] then Some("")
    else
      var n := LengthFrom(k[0]);
      if n <= |k| && IsScalar(Scalar(k[..n])) && EncodeChar(Scalar(k[..n]) as char) == k[..n] then
        match Decode(k[n..])
        case Some(rest) => Some([Scalar(k[..n]) as char] + rest)
        case None => None
      else None
  }

  /** The first character of what can be decoded, and the bytes after it. */
  lemma DecodeFirst(k: seq<byte>) returns (c: char, rest: seq<byte>)
    requires k != [] && Decode(k).Some?
    ensures k == EncodeChar(c) + rest && |rest| < |k|
    ensures Decode(rest).Some? && Decode(k).value == [c] + Decode(rest).value
  {
    hide EncodeChar, LengthFrom, Scalar;
    var n := LengthFrom(k[0]);
    assert n <= |k| && IsScalar(Scalar(k[..n])) && EncodeChar(Scalar(k[..n]) as char) == k[..n];
    c, rest := Scalar(k[..n]) as char, k[n..];
    assert k == k[..n] + k[n..];
  }

  lemma EncodeFirst(c: char, s: string)
    ensures Encode([c] + s) == EncodeChar(c) + Encode(s)
  {
    assert ([c] + s)[1..] == s;
  }

  lemma {:induction false} DecodeIs(k: seq<byte>)
    requires Decode(k).Some?
    ensures Encode(Decode(k).value) == k
    decreases |k|
  {
    if k != [] {
      hide EncodeChar, Encode, Decode;
      var c, rest := DecodeFirst(k);
      DecodeIs(rest);
      EncodeFirst(c, Decode(rest).value);
    }
  }

  lemma {:induction false} DecodeEncode(s: string)
    ensures Decode(Encode(s)) == Some(s)
  {
    if s != "" {
      hide EncodeChar, LengthFrom, Scalar;
      EncodeCharIs(s[0]);
      DecodeEncode(s[1..]);
      var r, k := EncodeChar(s[0]), Encode(s);
      assert k[0] == r[0] && k[..|r|] == r && k[|r|..] == Encode(s[1..]);
      assert s == [s[0]] + s[1..];
    }
  }
}
