/**
 * The password transform: the browser's `btoa`, that is Base64 (section 4 of RFC 4648, standard alphabet,
 * `=` padding) over the string's code units read as Latin-1 bytes. A code unit above 255 makes `btoa` throw.
 * The strict decoder below inverts the encoder, which proves the transform injective.
 */
module Base64 {
  import opened Wrappers

  type Byte = x: int | 0 <= x < 256
  type Sextet = x: int | 0 <= x < 64

  /** The character for a 6-bit value in the standard alphabet A-Z, a-z, 0-9, '+', '/'. */
  function Symbol(v: Sextet): (c: char)
    ensures c != '='
  {
    if v < 26 then ('A' as int + v) as char
    else if v < 52 then ('a' as int + (v - 26)) as char
    else if v < 62 then ('0' as int + (v - 52)) as char
    else if v == 62 then '+'
    else '/'
  }

  /** The 6-bit value of an alphabet character, or None for any other character. */
  function SymbolValue(c: char): (r: Option<Sextet>)
    ensures r.Some? ==> Symbol(r.value) == c
  {
    if 'A' <= c <= 'Z' then Some(c as int - 'A' as int)
    else if 'a' <= c <= 'z' then Some(c as int - 'a' as int + 26)
    else if '0' <= c <= '9' then Some(c as int - '0' as int + 52)
    else if c == '+' then Some(62)
    else if c == '/' then Some(63)
    else None
  }

  lemma SymbolRoundTrip(v: Sextet)
    ensures SymbolValue(Symbol(v)) == Some(v)
  {
  }

  /** Three bytes become four characters. */
  function EncodeGroup(b0: Byte, b1: Byte, b2: Byte): seq<char> {
    [Symbol(b0 / 4), Symbol((b0 % 4) * 16 + b1 / 16), Symbol((b1 % 16) * 4 + b2 / 64), Symbol(b2 % 64)]
  }

  /** A final group of one or two bytes, padded with `=` to four characters. */
  function EncodeFinal(b: seq<Byte>): (r: seq<char>)
    requires 1 <= |b| <= 2
    ensures |r| == 4 && r[3] == '='
  {
    if |b| == 1 then [Symbol(b[0] / 4), Symbol((b[0] % 4) * 16), '=', '=']
    else [Symbol(b[0] / 4), Symbol((b[0] % 4) * 16 + b[1] / 16), Symbol((b[1] % 16) * 4), '=']
  }

  /** Base64 of a byte sequence; a final group of one or two bytes is padded with `=`. */
  function Encode(b: seq<Byte>): (r: seq<char>)
    ensures |r| == 4 * ((|b| + 2) / 3)
    decreases |b|
  {
    if |b| == 0 then []
    else if |b| < 3 then EncodeFinal(b)
    else
      assert (|b| + 2) / 3 == (|b[3..]| + 2) / 3 + 1;
      EncodeGroup(b[0], b[1], b[2]) + Encode(b[3..])
  }

  /** Four alphabet characters give three bytes. */
  function DecodeGroup(c0: char, c1: char, c2: char, c3: char): Option<seq<Byte>> {
    var v0, v1, v2, v3 := SymbolValue(c0), SymbolValue(c1), SymbolValue(c2), SymbolValue(c3);
    if v0.None? || v1.None? || v2.None? || v3.None? then None
    else Some([v0.value * 4 + v1.value / 16, (v1.value % 16) * 16 + v2.value / 4, (v2.value % 4) * 64 + v3.value])
  }

  /** The first three characters of a final group whose last is `=`: one byte when the third is `=` too,
      otherwise two; the bits the padding drops must be zero. */
  function DecodeFinal(c0: char, c1: char, c2: char): Option<seq<Byte>> {
    var v0, v1, v2 := SymbolValue(c0), SymbolValue(c1), SymbolValue(c2);
    if v0.None? || v1.None? then None
    else if c2 == '=' then
      if v1.value % 16 == 0 then Some([v0.value * 4 + v1.value / 16]) else None
    else if v2.Some? && v2.value % 4 == 0 then Some([v0.value * 4 + v1.value / 16, (v1.value % 16) * 16 + v2.value / 4])
    else None
  }

  /** Strict Base64 decoding: only canonical input (full groups, padding only at the end, canonical padding
      bits) is accepted. */
  function Decode(s: seq<char>): Option<seq<Byte>>
    decreases |s|
  {
    if |s| == 0 then Some([])
    else if |s| < 4 then None
    else if s[3] == '=' then
      if |s| == 4 then DecodeFinal(s[0], s[1], s[2]) else None
    else
      match (DecodeGroup(s[0], s[1], s[2], s[3]), Decode(s[4..]))
      case (Some(group), Some(rest)) => Some(group + rest)
      case _ => None
  }

  /** The bit split of the first byte of a group is undone by the decoder. */
  lemma FirstByteRestored(b0: Byte, b1: Byte)
    ensures (b0 / 4) * 4 + ((b0 % 4) * 16 + b1 / 16) / 16 == b0
    ensures ((b0 % 4) * 16 + b1 / 16) % 16 == b1 / 16
  {
  }

  /** The bit split of the second byte of a group is undone by the decoder. */
  lemma SecondByteRestored(b1: Byte, b2: Byte)
    ensures (b1 / 16) * 16 + ((b1 % 16) * 4 + b2 / 64) / 4 == b1
    ensures ((b1 % 16) * 4 + b2 / 64) % 4 == b2 / 64
  {
  }

  /** A full group decodes back to its three bytes. */
  lemma DecodeGroupRestores(b0: Byte, b1: Byte, b2: Byte)
    ensures var g := EncodeGroup(b0, b1, b2); g[3] != '=' && DecodeGroup(g[0], g[1], g[2], g[3]) == Some([b0, b1, b2])
  {
    SymbolRoundTrip(b0 / 4);
    SymbolRoundTrip((b0 % 4) * 16 + b1 / 16);
    SymbolRoundTrip((b1 % 16) * 4 + b2 / 64);
    SymbolRoundTrip(b2 % 64);
    FirstByteRestored(b0, b1);
    SecondByteRestored(b1, b2);
  }

  /** A padded final group decodes back to its one or two bytes. */
  lemma DecodeFinalRestores(b: seq<Byte>)
    requires 1 <= |b| <= 2
    ensures var f := EncodeFinal(b); DecodeFinal(f[0], f[1], f[2]) == Some(b)
  {
    SymbolRoundTrip(b[0] / 4);
    if |b| == 1 {
      SymbolRoundTrip((b[0] % 4) * 16);
      FirstByteRestored(b[0], 0);
      assert [b[0]] == b;
    } else {
      SymbolRoundTrip((b[0] % 4) * 16 + b[1] / 16);
      SymbolRoundTrip((b[1] % 16) * 4);
      FirstByteRestored(b[0], b[1]);
      SecondByteRestored(b[1], 0);
      assert [b[0], b[1]] == b;
    }
  }

  /** A full group in front of decodable text decodes to its three bytes in front of the rest. */
  lemma DecodeGroupThenRest(b0: Byte, b1: Byte, b2: Byte, rest: seq<char>, tail: seq<Byte>)
    requires Decode(rest) == Some(tail)
    ensures Decode(EncodeGroup(b0, b1, b2) + rest) == Some([b0, b1, b2] + tail)
  {
    var g := EncodeGroup(b0, b1, b2);
    var s := g + rest;
    DecodeGroupRestores(b0, b1, b2);
    assert s[0] == g[0] && s[1] == g[1] && s[2] == g[2] && s[3] == g[3];
    assert s[4..] == rest;
  }

  /** Decoding the encoding of any byte sequence gives it back. */
  lemma {:induction false} DecodeEncode(b: seq<Byte>)
    ensures Decode(Encode(b)) == Some(b)
    decreases |b|
  {
    if 1 <= |b| <= 2 {
      DecodeFinalRestores(b);
    } else if |b| > 2 {
      var rest := b[3..];
      DecodeEncode(rest);
      DecodeGroupThenRest(b[0], b[1], b[2], Encode(rest), rest);
      assert [b[0], b[1], b[2]] + rest == b;
    }
  }

  /** Base64 is injective on byte sequences. */
  lemma EncodeInjective(a: seq<Byte>, b: seq<Byte>)
    requires Encode(a) == Encode(b)
    ensures a == b
  {
    DecodeEncode(a);
    DecodeEncode(b);
  }

  predicate IsLatin1(s: string) {
    forall i :: 0 <= i < |s| ==> s[i] as int < 256
  }

  /** The code units of a Latin-1 string, as bytes. */
  function Latin1Bytes(s: string): (b: seq<Byte>)
    requires IsLatin1(s)
    ensures |b| == |s|
    ensures forall i :: 0 <= i < |s| ==> b[i] == s[i] as int
  {
    seq(|s|, i requires 0 <= i < |s| => s[i] as int)
  }

  /** `btoa`: None where the browser throws (a code unit above 255), otherwise Base64 of the Latin-1 bytes. */
  function Btoa(s: string): (r: Option<string>)
    ensures r.None? <==> exists i :: 0 <= i < |s| && s[i] as int >= 256
    ensures r.Some? ==> |r.value| == 4 * ((|s| + 2) / 3)
    ensures r.Some? ==> Decode(r.value) == Some(Latin1Bytes(s))
  {
    if IsLatin1(s) then DecodeEncode(Latin1Bytes(s)); Some(Encode(Latin1Bytes(s))) else None
  }

  /** Two passwords with the same stored encoding are the same password. */
  lemma BtoaInjective(a: string, b: string)
    requires Btoa(a).Some? && Btoa(a) == Btoa(b)
    ensures a == b
  {
    var ba, bb := Latin1Bytes(a), Latin1Bytes(b);
    EncodeInjective(ba, bb);
    assert |a| == |b|;
    forall i | 0 <= i < |a| ensures a[i] == b[i] {
      assert a[i] as int == ba[i] == bb[i] == b[i] as int;
    }
  }
}
