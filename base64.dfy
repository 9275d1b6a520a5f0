/**
 * Base 64 encoding with the standard alphabet and '=' padding, as defined
 * in section 4 of RFC 4648. `Encode` is what Python's `base64.b64encode`
 * computes (followed by decoding the ASCII result to a `str`); `Decode` is
 * a strict decoder that accepts exactly the strings `Encode` can produce.
 *
 * The encoding is built in two layers: bytes are cut into 6-bit values
 * ("sextets", most significant bits first, the last one filled with zero
 * bits), and every sextet is then written as one character of the alphabet,
 * followed by the pad characters that complete the last group of four.
 */
module Base64 {
  import opened Wrappers

  /** A Python `bytes` element. */
  type byte = b: int | 0 <= b < 256

  /** A 6-bit value, the unit one alphabet character stands for. */
  type sextet = v: int | 0 <= v < 64

  /** The 64 characters of the alphabet of RFC 4648, Table 1. */
  predicate IsAlphabetChar(c: char) {
    ('A' <= c <= 'Z') || ('a' <= c <= 'z') || ('0' <= c <= '9') || c == '+' || c == '/'
  }

  /** The character that encodes the sextet `v`. */
  function CharOf(v: sextet): (c: char)
    ensures IsAlphabetChar(c)
  {
    if v < 26 then (65 + v) as char
    else if v < 52 then (97 + v - 26) as char
    else if v < 62 then (48 + v - 52) as char
    else if v == 62 then '+'
    else '/'
  }

  /** The sextet that an alphabet character encodes. */
  function ValueOf(c: char): (v: sextet)
    requires IsAlphabetChar(c)
    ensures CharOf(v) == c
  {
    if 'A' <= c <= 'Z' then c as int - 65
    else if 'a' <= c <= 'z' then c as int - 97 + 26
    else if '0' <= c <= '9' then c as int - 48 + 52
    else if c == '+' then 62
    else 63
  }

  /** Number of sextets that carry `n` bytes: one per started 6 bits. */
  function SextetCount(n: nat): nat {
    4 * (n / 3) + (if n % 3 == 0 then 0 else n % 3 + 1)
  }

  /** Number of '=' characters that close the encoding of `n` bytes. */
  function Padding(n: nat): (p: nat)
    ensures p <= 2 && (p == 0 <==> n % 3 == 0)
    ensures (SextetCount(n) + p) % 4 == 0
  {
    (3 - n % 3) % 3
  }

  /** The sextets of `b`, most significant bits first, zero-filled at the end. */
  function Sextets(b: seq<byte>): (v: seq<sextet>)
    ensures |v| == SextetCount(|b|)
    decreases |b|
  {
    if |b| == 0 then []
    else if |b| == 1 then [b[0] / 4, (b[0] % 4) * 16]
    else if |b| == 2 then [b[0] / 4, (b[0] % 4) * 16 + b[1] / 16, (b[1] % 16) * 4]
    else [b[0] / 4, (b[0] % 4) * 16 + b[1] / 16, (b[1] % 16) * 4 + b[2] / 64, b[2] % 64] + Sextets(b[3..])
  }

  /**
   * The bytes that a run of sextets carries, or `None` when the run cannot
   * end an encoding: a single sextet left over, or nonzero fill bits.
   */
  function FromSextets(v: seq<sextet>): Option<seq<byte>>
    decreases |v|
  {
    if |v| == 0 then Some([])
    else if |v| == 1 then None
    else
      var b0: byte := v[0] as int * 4 + v[1] / 16;
      if |v| == 2 then
        if v[1] % 16 == 0 then Some([b0]) else None
      else
        var b1: byte := (v[1] as int % 16) * 16 + v[2] / 4;
        if |v| == 3 then
          if v[2] % 4 == 0 then Some([b0, b1]) else None
        else
          var b2: byte := (v[2] as int % 4) * 64 + v[3];
          match FromSextets(v[4..])
          case None => None
          case Some(rest) => Some([b0, b1, b2] + rest)
  }

  /** One alphabet character per sextet. */
  function ToChars(v: seq<sextet>): (s: string)
    ensures |s| == |v| && forall i :: 0 <= i < |s| ==> IsAlphabetChar(s[i])
  {
    seq(|v|, i requires 0 <= i < |v| => CharOf(v[i]))
  }

  /** The sextets that a run of alphabet characters stands for. */
  function ToSextets(s: string): (v: seq<sextet>)
    requires forall i :: 0 <= i < |s| ==> IsAlphabetChar(s[i])
    ensures ToChars(v) == s
  {
    seq(|s|, i requires 0 <= i < |s| => ValueOf(s[i]))
  }

  /** `n` pad characters. */
  function Pad(n: nat): (s: string)
    ensures |s| == n && forall i :: 0 <= i < n ==> s[i] == '='
  {
    seq(n, _ => '=')
  }

  /**
   * Base 64 encoding of `b`: four characters for every started group of
   * three bytes, alphabet characters first and then exactly `Padding(|b|)`
   * pad characters.
   */
  function Encode(b: seq<byte>): (r: string)
    ensures |r| == 4 * ((|b| + 2) / 3)
    ensures forall i :: 0 <= i < |r| - Padding(|b|) ==> IsAlphabetChar(r[i])
    ensures forall i :: |r| - Padding(|b|) <= i < |r| ==> r[i] == '='
  {
    ToChars(Sextets(b)) + Pad(Padding(|b|))
  }

  /** How many pad characters end `s` (at most two are recognised). */
  function TrailingPads(s: string): (p: nat)
    ensures p <= 2 && p <= |s|
    ensures forall i :: |s| - p <= i < |s| ==> s[i] == '='
  {
    if |s| >= 2 && s[|s| - 1] == '=' && s[|s| - 2] == '=' then 2
    else if |s| >= 1 && s[|s| - 1] == '=' then 1
    else 0
  }

  /** Strict base 64 decoding: `None` for anything `Encode` cannot produce. */
  function Decode(s: string): Option<seq<byte>> {
    if |s| % 4 != 0 then None
    else
      var body := s[..|s| - TrailingPads(s)];
      if forall i :: 0 <= i < |body| ==> IsAlphabetChar(body[i]) then FromSextets(ToSextets(body))
      else None
  }

  // ---------------------------------------------------------------------
  // Properties of the encoding

  lemma FromSextetsGroup(b0: byte, b1: byte, b2: byte)
    ensures var v0, v1, v2, v3 := b0 / 4, (b0 % 4) * 16 + b1 / 16, (b1 % 16) * 4 + b2 / 64, b2 % 64;
      v0 * 4 + v1 / 16 == b0 && (v1 % 16) * 16 + v2 / 4 == b1 && (v2 % 4) * 64 + v3 == b2
  {
  }

  /** Cutting bytes into sextets loses nothing. */
  lemma {:induction false} FromSextetsSextets(b: seq<byte>)
    ensures FromSextets(Sextets(b)) == Some(b)
    decreases |b|
  {
    if |b| == 1 {
      assert [b[0]] == b;
    } else if |b| == 2 {
      assert [b[0], b[1]] == b;
    } else if |b| >= 3 {
      var v := Sextets(b);
      FromSextetsGroup(b[0], b[1], b[2]);
      FromSextetsSextets(b[3..]);
      assert v[4..] == Sextets(b[3..]);
      assert [b[0], b[1], b[2]] + b[3..] == b;
    }
  }

  /** Round trip: decoding an encoding gives back the original bytes. */
  lemma DecodeEncode(b: seq<byte>)
    ensures Decode(Encode(b)) == Some(b)
  {
    var v := Sextets(b);
    var s := Encode(b);
    assert TrailingPads(s) == Padding(|b|);
    assert s[..|s| - Padding(|b|)] == ToChars(v);
    assert ToSextets(ToChars(v)) == v;
    FromSextetsSextets(b);
  }

  lemma RegroupTwo(v0: sextet, v1: sextet)
    requires v1 % 16 == 0
    ensures var b0 := v0 * 4 + v1 / 16; b0 / 4 == v0 && (b0 % 4) * 16 == v1
  {
  }

  lemma RegroupThree(v0: sextet, v1: sextet, v2: sextet)
    requires v2 % 4 == 0
    ensures var b0, b1 := v0 * 4 + v1 / 16, (v1 % 16) * 16 + v2 / 4;
      b0 / 4 == v0 && (b0 % 4) * 16 + b1 / 16 == v1 && (b1 % 16) * 4 == v2
  {
  }

  lemma RegroupFour(v0: sextet, v1: sextet, v2: sextet, v3: sextet)
    ensures var b0, b1, b2 := v0 * 4 + v1 / 16, (v1 % 16) * 16 + v2 / 4, (v2 % 4) * 64 + v3;
      b0 / 4 == v0 && (b0 % 4) * 16 + b1 / 16 == v1 && (b1 % 16) * 4 + b2 / 64 == v2 && b2 % 64 == v3
  {
  }

  /** Whatever `FromSextets` accepts is exactly the sextets of its result. */
  lemma {:induction false} SextetsFromSextets(v: seq<sextet>, b: seq<byte>)
    requires FromSextets(v) == Some(b)
    ensures Sextets(b) == v
    decreases |v|
  {
    if |v| == 2 {
      RegroupTwo(v[0], v[1]);
      assert Sextets(b) == [v[0], v[1]];
    } else if |v| == 3 {
      RegroupThree(v[0], v[1], v[2]);
      assert Sextets(b) == [v[0], v[1], v[2]];
    } else if |v| >= 4 {
      var rest := FromSextets(v[4..]).value;
      SextetsFromSextets(v[4..], rest);
      RegroupFour(v[0], v[1], v[2], v[3]);
      assert |b| >= 3 && b[3..] == rest;
      assert Sextets(b) == v[..4] + Sextets(b[3..]);
      assert v == v[..4] + v[4..];
    }
  }

  /** The number of pad characters is fixed by the number of sextets. */
  lemma PaddingDetermined(n: nat, p: nat)
    requires p <= 2 && (SextetCount(n) + p) % 4 == 0
    ensures Padding(n) == p
  {
    var q, r := n / 3, n % 3;
    assert SextetCount(n) == 4 * q + (if r == 0 then 0 else r + 1);
  }

  /** The decoder is strict: it accepts only what `Encode` produces. */
  lemma EncodeDecode(s: string, b: seq<byte>)
    requires Decode(s) == Some(b)
    ensures Encode(b) == s
  {
    var p := TrailingPads(s);
    var body := s[..|s| - p];
    var v := ToSextets(body);
    SextetsFromSextets(v, b);
    assert |v| == SextetCount(|b|) == |s| - p;
    PaddingDetermined(|b|, p);
    assert s == body + Pad(p);
  }

  /** `Decode` is the exact inverse of `Encode`. */
  lemma DecodeIffEncode(s: string, b: seq<byte>)
    ensures Decode(s) == Some(b) <==> Encode(b) == s
  {
    if Decode(s) == Some(b) {
      EncodeDecode(s, b);
    }
    if Encode(b) == s {
      DecodeEncode(b);
    }
  }

  /** Different byte strings have different encodings. */
  lemma EncodeInjective(a: seq<byte>, b: seq<byte>)
    requires Encode(a) == Encode(b)
    ensures a == b
  {
    DecodeEncode(a);
    DecodeEncode(b);
  }

  /** Test vectors of up to one group, from section 10 of RFC 4648. */
  lemma TestVectorsOneGroup()
    ensures Encode([]) == ""
    ensures Encode([102]) == "Zg=="
    ensures Encode([102, 111]) == "Zm8="
    ensures Encode([102, 111, 111]) == "Zm9v"
  {
    assert Sextets([102]) == [25, 32];
    assert ToChars([25, 32]) == "Zg";
    assert Sextets([102, 111]) == [25, 38, 60];
    assert ToChars([25, 38, 60]) == "Zm8";
    assert Sextets([102, 111, 111]) == [25, 38, 61, 47];
    assert ToChars([25, 38, 61, 47]) == "Zm9v";
  }

  /** Test vectors of two groups, from section 10 of RFC 4648. */
  lemma TestVectorsTwoGroups()
    ensures Encode([102, 111, 111, 98]) == "Zm9vYg=="
    ensures Encode([102, 111, 111, 98, 97]) == "Zm9vYmE="
    ensures Encode([102, 111, 111, 98, 97, 114]) == "Zm9vYmFy"
  {
    assert Sextets([98]) == [24, 32];
    assert [102, 111, 111, 98][3..] == [98];
    assert Sextets([102, 111, 111, 98]) == [25, 38, 61, 47, 24, 32];
    assert ToChars([25, 38, 61, 47, 24, 32]) == "Zm9vYg";
    assert Sextets([98, 97]) == [24, 38, 4];
    assert [102, 111, 111, 98, 97][3..] == [98, 97];
    assert Sextets([102, 111, 111, 98, 97]) == [25, 38, 61, 47, 24, 38, 4];
    assert ToChars([25, 38, 61, 47, 24, 38, 4]) == "Zm9vYmE";
    assert Sextets([98, 97, 114]) == [24, 38, 5, 50];
    assert [102, 111, 111, 98, 97, 114][3..] == [98, 97, 114];
    assert Sextets([102, 111, 111, 98, 97, 114]) == [25, 38, 61, 47, 24, 38, 5, 50];
    assert ToChars([25, 38, 61, 47, 24, 38, 5, 50]) == "Zm9vYmFy";
  }

  /**
   * The two characters that set the alphabet of section 4 of RFC 4648 apart
   * from the URL-safe one of section 5: sextets 62 and 63 are '+' and '/'.
   */
  lemma TestVectorStandardAlphabet()
    ensures Encode([251, 255]) == "+/8="
  {
    assert Sextets([251, 255]) == [62, 63, 60];
    assert ToChars([62, 63, 60]) == "+/8";
  }
}
