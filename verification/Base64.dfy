/** The base64 encoding of RFC 4648, section 4, and the serializer's byte loops on top of it. */
module Base64 {
  import opened Wrappers

  type byte = x: int | 0 <= x < 256

  type sextet = x: int | 0 <= x < 64

  function CharOf(s: sextet): char {
    if s < 26 then ('A' as int + s) as char
    else if s < 52 then ('a' as int + s - 26) as char
    else if s < 62 then ('0' as int + s - 52) as char
    else if s == 62 then '+' else '/'
  }

  function SextetOf(c: char): Option<sextet> {
    if 'A' <= c <= 'Z' then Some(c as int - 'A' as int)
    else if 'a' <= c <= 'z' then Some(c as int - 'a' as int + 26)
    else if '0' <= c <= '9' then Some(c as int - '0' as int + 52)
    else if c == '+' then Some(62)
    else if c == '/' then Some(63) else None
  }

  /** Three bytes as four sextets. */
  function Quad(a: byte, b: byte, c: byte): (q: (sextet, sextet, sextet, sextet)) {
    (a / 4, a % 4 * 16 + b / 16, b % 16 * 4 + c / 64, c % 64)
  }

  /** One group: four characters for up to three bytes, padded with `=`. */
  function EncodeGroup(bytes: seq<byte>): (s: string)
    requires 1 <= |bytes| <= 3
    ensures |s| == 4
  {
    if |bytes| == 1 then
      var q := Quad(bytes[0], 0, 0);
      [CharOf(q.0), CharOf(q.1), '=', '=']
    else if |bytes| == 2 then
      var q := Quad(bytes[0], bytes[1], 0);
      [CharOf(q.0), CharOf(q.1), CharOf(q.2), '=']
    else
      var q := Quad(bytes[0], bytes[1], bytes[2]);
      [CharOf(q.0), CharOf(q.1), CharOf(q.2), CharOf(q.3)]
  }

  /** The encoded form: one group for every three bytes. */
  function Encode(bytes: seq<byte>): (s: string)
    ensures 4 * |bytes| <= 3 * |s| <= 4 * |bytes| + 8
  {
    if bytes == [] then ""
    else if |bytes| <= 3 then EncodeGroup(bytes)
    else
      EncodeGroup(bytes[..3]) + Encode(bytes[3..])
  }

  function First(p: sextet, q: sextet): byte { p * 4 + q / 16 }

  function Second(q: sextet, r: sextet): byte { q % 16 * 16 + r / 4 }

  function Third(r: sextet, t: sextet): byte { r % 4 * 64 + t }

  predicate IsWhitespace(c: char) { c == ' ' || c == '\t' || c == '\n' || c == '\r' || c == '\U{000C}' }

  function WithoutWhitespace(s: string): string {
    if s == "" then "" else if IsWhitespace(s[0]) then WithoutWhitespace(s[1..]) else [s[0]] + WithoutWhitespace(s[1..])
  }

  /** The text without its padding, if it has one. */
  function Unpadded(s: string): string {
    if |s| % 4 != 0 || s == "" || s[|s| - 1] != '=' then s
    else if s[|s| - 2] == '=' then s[..|s| - 2] else s[..|s| - 1]
  }

  /** Bits that do not make up a byte are cut off. */
  function DecodeUnpadded(s: string): Option<seq<byte>> {
    if |s| == 0 then Some([])
    else if |s| == 1 || SextetOf(s[0]).None? || SextetOf(s[1]).None? then None
    else
      var p, q := SextetOf(s[0]).value, SextetOf(s[1]).value;
      if |s| == 2 then Some([First(p, q)])
      else if SextetOf(s[2]).None? then None
      else
        var r := SextetOf(s[2]).value;
        if |s| == 3 then Some([First(p, q), Second(q, r)])
        else
          match (SextetOf(s[3]), DecodeUnpadded(s[4..]))
          case (Some(t), Some(rest)) => Some([First(p, q), Second(q, r), Third(r, t)] + rest)
          case _ => None
  }

  /** The decoder of the Infra Standard, section "Forgiving base64": `None` for a text it rejects. */
  function Decode(s: string): Option<seq<byte>> { DecodeUnpadded(Unpadded(WithoutWhitespace(s))) }

  lemma SextetOfChar(s: sextet)
    ensures SextetOf(CharOf(s)) == Some(s) && CharOf(s) != '=' && CharOf(s) as int < 128 && !IsWhitespace(CharOf(s))
  {}

  /** Four sextets hold the three bytes. */
  lemma QuadHolds(a: byte, b: byte, c: byte)
    ensures var q := Quad(a, b, c); First(q.0, q.1) == a && Second(q.1, q.2) == b && Third(q.2, q.3) == c
  {}

  lemma GroupChars(bytes: seq<byte>, q: (sextet, sextet, sextet, sextet))
    requires 1 <= |bytes| <= 3
    requires q == Quad(bytes[0], if |bytes| > 1 then bytes[1] else 0, if |bytes| > 2 then bytes[2] else 0)
    ensures var s := EncodeGroup(bytes);
            && SextetOf(s[0]) == Some(q.0) && SextetOf(s[1]) == Some(q.1)
            && (if |bytes| > 1 then SextetOf(s[2]) == Some(q.2) && s[2] != '=' else s[2] == '=')
            && (if |bytes| > 2 then SextetOf(s[3]) == Some(q.3) && s[3] != '=' else s[3] == '=')
            && forall i :: 0 <= i < 4 ==> !IsWhitespace(s[i])
  {
    SextetOfChar(q.0);
    SextetOfChar(q.1);
    SextetOfChar(q.2);
    SextetOfChar(q.3);
  }

  /** A group decodes to the bytes it encodes, whatever follows a full one. */
  lemma DecodeGroup(bytes: seq<byte>, rest: string)
    requires 1 <= |bytes| <= 3 && (rest != "" ==> |bytes| == 3) && DecodeUnpadded(rest).Some?
    ensures rest == "" ==> DecodeUnpadded(Unpadded(EncodeGroup(bytes))) == Some(bytes)
    ensures |bytes| == 3 ==> DecodeUnpadded(EncodeGroup(bytes) + rest) == Some(bytes + DecodeUnpadded(rest).value)
  {
    hide First, Second, Third, Quad, CharOf, SextetOf, EncodeGroup;
    var b: byte := if |bytes| > 1 then bytes[1] else 0;
    var c: byte := if |bytes| > 2 then bytes[2] else 0;
    var q := Quad(bytes[0], b, c);
    QuadHolds(bytes[0], b, c);
    GroupChars(bytes, q);
    var s := EncodeGroup(bytes);
    if |bytes| == 1 {
      assert Unpadded(s) == [s[0], s[1]] && bytes == [bytes[0]];
    } else if |bytes| == 2 {
      assert Unpadded(s) == [s[0], s[1], s[2]] && bytes == [bytes[0], bytes[1]];
    } else {
      assert (s + rest)[4..] == rest && bytes == [bytes[0], bytes[1], bytes[2]];
      assert Unpadded(s) == s;
      assert rest == "" ==> s + rest == s && bytes + DecodeUnpadded(rest).value == bytes;
    }
  }

  lemma {:induction false} NoWhitespace(s: string)
    requires forall i :: 0 <= i < |s| ==> !IsWhitespace(s[i])
    ensures WithoutWhitespace(s) == s
  {
    if s != "" { NoWhitespace(s[1..]); }
  }

  /** An encoding is whole groups of characters that are not whitespace. */
  lemma {:induction false} EncodeChars(bytes: seq<byte>)
    ensures |Encode(bytes)| % 4 == 0 && forall i :: 0 <= i < |Encode(bytes)| ==> !IsWhitespace(Encode(bytes)[i])
  {
    hide First, Second, Third, Quad, CharOf, SextetOf, EncodeGroup, IsWhitespace;
    if bytes != [] {
      var group := if |bytes| <= 3 then bytes else bytes[..3];
      GroupChars(group, Quad(group[0], if |group| > 1 then group[1] else 0, if |group| > 2 then group[2] else 0));
      if |bytes| > 3 { EncodeChars(bytes[3..]); }
    }
  }

  /** Padding is at the end of the last group. */
  lemma UnpaddedMore(front: string, rest: string)
    requires |front| == 4 && rest != "" && |rest| % 4 == 0
    ensures Unpadded(front + rest) == front + Unpadded(rest)
  {}

  lemma {:induction false} DecodeEncodeUnpadded(bytes: seq<byte>)
    ensures DecodeUnpadded(Unpadded(Encode(bytes))) == Some(bytes)
  {
    if |bytes| > 3 {
      hide EncodeGroup, DecodeUnpadded, Unpadded;
      var front, rest := EncodeGroup(bytes[..3]), Encode(bytes[3..]);
      DecodeEncodeUnpadded(bytes[3..]);
      EncodeChars(bytes[3..]);
      DecodeGroup(bytes[..3], Unpadded(rest));
      UnpaddedMore(front, rest);
      assert bytes == bytes[..3] + bytes[3..];
    } else if bytes != [] {
      hide EncodeGroup, Unpadded;
      DecodeGroup(bytes, "");
    }
  }

  /** The alphabet of RFC 4648, section 4: three runs of characters and two single ones. */
  lemma Alphabet(s: sextet)
    ensures CharOf(0) == 'A' && CharOf(25) == 'Z' && CharOf(26) == 'a' && CharOf(51) == 'z'
    ensures CharOf(52) == '0' && CharOf(61) == '9' && CharOf(62) == '+' && CharOf(63) == '/'
    ensures s + 1 < 62 && s != 25 && s != 51 ==> CharOf(s + 1) as int == CharOf(s) as int + 1
  {}

  /** Every three bytes are four characters, for six bits each of their 24, the highest first. */
  lemma {:induction false} GroupAt(bytes: seq<byte>, g: nat) returns (p: sextet, q: sextet, r: sextet, t: sextet)
    requires 3 * g + 3 <= |bytes|
    ensures 0x40000 * p as int + 0x1000 * q as int + 0x40 * r as int + t as int
         == 0x10000 * bytes[3 * g] as int + 0x100 * bytes[3 * g + 1] as int + bytes[3 * g + 2] as int
    ensures |Encode(bytes)| >= 4 * g + 4
    ensures Encode(bytes)[4 * g..4 * g + 4] == [CharOf(p), CharOf(q), CharOf(r), CharOf(t)]
  {
    hide CharOf, EncodeGroup;
    if g == 0 {
      p, q, r, t := FirstGroup(bytes);
    } else {
      var front, rest := EncodeGroup(bytes[..3]), bytes[3..];
      p, q, r, t := GroupAt(rest, g - 1);
      GroupMoves(front, Encode(rest), g);
    }
  }

  lemma GroupMoves(front: string, rest: string, g: nat)
    requires |front| == 4 && g > 0 && |rest| >= 4 * g
    ensures (front + rest)[4 * g..4 * g + 4] == rest[4 * (g - 1)..4 * (g - 1) + 4]
  {}

  lemma FirstGroup(bytes: seq<byte>) returns (p: sextet, q: sextet, r: sextet, t: sextet)
    requires |bytes| >= 3
    ensures 0x40000 * p as int + 0x1000 * q as int + 0x40 * r as int + t as int
         == 0x10000 * bytes[0] as int + 0x100 * bytes[1] as int + bytes[2] as int
    ensures |Encode(bytes)| >= 4 && Encode(bytes)[0..4] == [CharOf(p), CharOf(q), CharOf(r), CharOf(t)]
  {
    hide CharOf, Quad;
    var a, b, c := bytes[0], bytes[1], bytes[2];
    SixBits(a, b, c);
    var four := Quad(a, b, c);
    p, q, r, t := four.0, four.1, four.2, four.3;
    assert bytes[..3] == [a, b, c];
    if |bytes| == 3 { assert bytes == [a, b, c]; }
  }

  lemma SixBits(a: byte, b: byte, c: byte)
    ensures var q := Quad(a, b, c);
            0x40000 * q.0 as int + 0x1000 * q.1 as int + 0x40 * q.2 as int + q.3 as int
            == 0x10000 * a as int + 0x100 * b as int + c as int
  {
    assert a == a / 4 * 4 + a % 4;
    assert b == b / 16 * 16 + b % 16;
    assert c == c / 64 * 64 + c % 64;
  }

  /** One byte after the last group is two characters and two signs of padding, two are three and one. */
  lemma {:induction false} TailAt(bytes: seq<byte>, g: nat) returns (p: sextet, q: sextet, r: sextet)
    requires |bytes| == 3 * g + 1 || |bytes| == 3 * g + 2
    ensures |Encode(bytes)| == 4 * g + 4
    ensures 0x40000 * p as int + 0x1000 * q as int + 0x40 * r as int
         == 0x10000 * bytes[3 * g] as int + if |bytes| == 3 * g + 2 then 0x100 * bytes[3 * g + 1] as int else 0
    ensures |bytes| == 3 * g + 1 ==> r == 0 && Encode(bytes)[4 * g..4 * g + 4] == [CharOf(p), CharOf(q), '=', '=']
    ensures |bytes| == 3 * g + 2 ==> Encode(bytes)[4 * g..4 * g + 4] == [CharOf(p), CharOf(q), CharOf(r), '=']
  {
    hide CharOf, EncodeGroup, Encode;
    if g > 0 {
      var rest := bytes[3..];
      p, q, r := TailAt(rest, g - 1);
      EncodeMore(bytes);
      GroupMoves(EncodeGroup(bytes[..3]), Encode(rest), g);
      assert rest[3 * (g - 1)] == bytes[3 * g];
      if |bytes| == 3 * g + 2 { assert rest[3 * (g - 1) + 1] == bytes[3 * g + 1]; }
    } else {
      p, q, r := ShortGroup(bytes);
    }
  }

  lemma EncodeMore(bytes: seq<byte>)
    requires |bytes| > 3
    ensures Encode(bytes) == EncodeGroup(bytes[..3]) + Encode(bytes[3..])
  {}

  lemma ShortGroup(bytes: seq<byte>) returns (p: sextet, q: sextet, r: sextet)
    requires 1 <= |bytes| <= 2
    ensures |Encode(bytes)| == 4 && Encode(bytes)[0..4] == Encode(bytes)
    ensures 0x40000 * p as int + 0x1000 * q as int + 0x40 * r as int
         == 0x10000 * bytes[0] as int + if |bytes| == 2 then 0x100 * bytes[1] as int else 0
    ensures |bytes| == 1 ==> r == 0 && Encode(bytes) == [CharOf(p), CharOf(q), '=', '=']
    ensures |bytes| == 2 ==> Encode(bytes) == [CharOf(p), CharOf(q), CharOf(r), '=']
  {
    hide CharOf, Quad;
    var b: byte := if |bytes| == 2 then bytes[1] else 0;
    SixBits(bytes[0], b, 0);
    LowBits(bytes[0], b);
    var four := Quad(bytes[0], b, 0);
    p, q, r := four.0, four.1, four.2;
  }

  lemma LowBits(a: byte, b: byte)
    ensures Quad(a, b, 0).3 == 0 && (b == 0 ==> Quad(a, b, 0).2 == 0)
  {}

  /** Decoding gives back what was encoded. */
  lemma DecodeEncode(bytes: seq<byte>)
    ensures Decode(Encode(bytes)) == Some(bytes)
  {
    EncodeChars(bytes);
    NoWhitespace(Encode(bytes));
    DecodeEncodeUnpadded(bytes);
  }

  // ----- The loops used where no `Buffer` is available -----

  /** `String.fromCharCode` of each byte. */
  function Latin1(bytes: seq<byte>): (s: string)
    ensures |s| == |bytes| && forall i :: 0 <= i < |s| ==> s[i] as int == bytes[i]
  {
    seq(|bytes|, i requires 0 <= i < |bytes| => bytes[i] as char)
  }

  function CharCodes(s: string): (bytes: seq<byte>)
    requires forall i :: 0 <= i < |s| ==> s[i] as int < 256
    ensures |bytes| == |s| && forall i :: 0 <= i < |s| ==> bytes[i] == s[i] as int
  {
    seq(|s|, i requires 0 <= i < |s| => s[i] as int)
  }

  /** `btoa`, on a string of characters below 256. */
  function Btoa(binary: string): string
    requires forall i :: 0 <= i < |binary| ==> binary[i] as int < 256
  {
    Encode(CharCodes(binary))
  }

  /** `atob`; `None` is its exception. */
  function Atob(s: string): (binary: Option<string>)
    ensures binary.Some? ==> forall i :: 0 <= i < |binary.value| ==> binary.value[i] as int < 256
  {
    match Decode(s)
    case Some(bytes) => Some(Latin1(bytes))
    case None => None
  }

  method BytesToBase64(bytes: seq<byte>) returns (s: string)
    ensures s == Encode(bytes)
  {
    var binary := "";
    for i := 0 to |bytes|
      invariant |binary| == i && forall j :: 0 <= j < i ==> binary[j] as int == bytes[j]
    {
      binary := binary + [bytes[i] as char];
    }
    assert CharCodes(binary) == bytes;
    s := Btoa(binary);
  }

  method Base64ToBytes(value: string) returns (r: Option<seq<byte>>)
    ensures r == Decode(value)
  {
    var binary := Atob(value);
    if binary.None? { return None; }
    var bytes := new byte[|binary.value|];
    for index := 0 to |binary.value|
      invariant forall j :: 0 <= j < index ==> bytes[j] == binary.value[j] as int
    {
      bytes[index] := binary.value[index] as int;
    }
    r := Some(bytes[..]);
    assert bytes[..] == Decode(value).value;
  }
}
