/**
 * Base 64 encoding with the standard alphabet and `=` padding (section 4 of RFC 4648),
 * as Python's `base64.b64encode` writes it and `base64.b64decode` reads it back.
 */
module Base64 {
  import opened Errors

  type byte = x: int | 0 <= x < 256

  predicate IsAlphabetChar(c: char)
  {
    ('A' <= c <= 'Z') || ('a' <= c <= 'z') || ('0' <= c <= '9') || c == '+' || c == '/'
  }

  /** The character of the standard alphabet for a six-bit value. */
  function EncodeSextet(i: nat): (c: char)
    requires i < 64
    ensures IsAlphabetChar(c)
  {
    if i < 26 then ('A' as int + i) as char
    else if i < 52 then ('a' as int + (i - 26)) as char
    else if i < 62 then ('0' as int + (i - 52)) as char
    else if i == 62 then '+'
    else '/'
  }

  /** The six-bit value of an alphabet character. */
  function DecodeSextet(c: char): (i: nat)
    requires IsAlphabetChar(c)
    ensures i < 64
  {
    if 'A' <= c <= 'Z' then c as int - 'A' as int
    else if 'a' <= c <= 'z' then c as int - 'a' as int + 26
    else if '0' <= c <= '9' then c as int - '0' as int + 52
    else if c == '+' then 62
    else 63
  }

  lemma SextetRoundTrip(i: nat)
    requires i < 64
    ensures DecodeSextet(EncodeSextet(i)) == i
  {
  }

  /** Three bytes as four characters. */
  function Group(x: byte, y: byte, z: byte): (g: string)
    ensures |g| == 4 && forall i :: 0 <= i < 4 ==> IsAlphabetChar(g[i])
  {
    [EncodeSextet(x / 4), EncodeSextet(x % 4 * 16 + y / 16), EncodeSextet(y % 16 * 4 + z / 64), EncodeSextet(z % 64)]
  }

  /** The last one or two bytes as four characters, padded with `=`; nothing for no bytes. */
  function Final(b: seq<byte>): (g: string)
    requires |b| < 3
    ensures |g| == (if |b| == 0 then 0 else 4)
    ensures forall i :: 0 <= i < |g| ==> IsAlphabetChar(g[i]) || g[i] == '='
  {
    if |b| == 0 then ""
    else if |b| == 1 then [EncodeSextet(b[0] / 4), EncodeSextet(b[0] % 4 * 16), '=', '=']
    else [EncodeSextet(b[0] / 4), EncodeSextet(b[0] % 4 * 16 + b[1] / 16), EncodeSextet(b[1] % 16 * 4), '=']
  }

  /** `base64.b64encode(b).decode()`: each group of three bytes becomes four characters. */
  function Encode(b: seq<byte>): (s: string)
    ensures |s| == (|b| + 2) / 3 * 4
    ensures forall i :: 0 <= i < |s| ==> IsAlphabetChar(s[i]) || s[i] == '='
  {
    if |b| < 3 then Final(b) else Group(b[0], b[1], b[2]) + Encode(b[3..])
  }

  /**
   * `base64.b64decode(s)` for text in the form `Encode` writes: groups of four alphabet
   * characters, with `=` padding only in the last group. Anything else is an error here.
   */
  function Decode(s: string): Option<seq<byte>>
  {
    if |s| == 0 then Some([])
    else if |s| < 4 then None
    else
      match DecodeQuad(s[0], s[1], s[2], s[3])
      case None => None
      case Some(q) =>
        if |q| < 3 then (if |s| == 4 then Some(q) else None)
        else
          match Decode(s[4..])
          case None => None
          case Some(rest) => Some(q + rest)
  }

  /**
   * One group of four characters: three bytes, or one or two bytes before `=` padding;
   * `None` when a character is out of place.
   */
  function DecodeQuad(a: char, b: char, c: char, d: char): Option<seq<byte>>
  {
    if !IsAlphabetChar(a) || !IsAlphabetChar(b) then None
    else
      var c0, c1 := DecodeSextet(a), DecodeSextet(b);
      var b0: byte := c0 * 4 + c1 / 16;
      if c == '=' then
        if d == '=' then Some([b0]) else None
      else if !IsAlphabetChar(c) then None
      else
        var c2 := DecodeSextet(c);
        var b1: byte := c1 % 16 * 16 + c2 / 4;
        if d == '=' then Some([b0, b1])
        else if !IsAlphabetChar(d) then None
        else
          var b2: byte := c2 % 4 * 64 + DecodeSextet(d);
          Some([b0, b1, b2])
  }

  /** The bit arithmetic of one group: the sextets of three bytes give the bytes back. */
  lemma GroupArithmetic(x: byte, y: byte, z: byte)
    ensures x / 4 * 4 + (x % 4 * 16 + y / 16) / 16 == x
    ensures (x % 4 * 16 + y / 16) % 16 * 16 + (y % 16 * 4 + z / 64) / 4 == y
    ensures (y % 16 * 4 + z / 64) % 4 * 64 + z % 64 == z
    ensures x / 4 * 4 + (x % 4 * 16) / 16 == x
    ensures (x % 4 * 16 + y / 16) % 16 * 16 + (y % 16 * 4) / 4 == y
  {
  }

  lemma QuadOne(x: byte)
    ensures DecodeQuad(EncodeSextet(x / 4), EncodeSextet(x % 4 * 16), '=', '=') == Some([x])
  {
    SextetRoundTrip(x / 4);
    SextetRoundTrip(x % 4 * 16);
    GroupArithmetic(x, 0, 0);
  }

  lemma QuadTwo(x: byte, y: byte)
    ensures DecodeQuad(EncodeSextet(x / 4), EncodeSextet(x % 4 * 16 + y / 16), EncodeSextet(y % 16 * 4), '=')
         == Some([x, y])
  {
    SextetRoundTrip(x / 4);
    SextetRoundTrip(x % 4 * 16 + y / 16);
    SextetRoundTrip(y % 16 * 4);
    GroupArithmetic(x, y, 0);
  }

  lemma QuadThree(x: byte, y: byte, z: byte)
    ensures var g := Group(x, y, z); DecodeQuad(g[0], g[1], g[2], g[3]) == Some([x, y, z])
  {
    SextetRoundTrip(x / 4);
    SextetRoundTrip(x % 4 * 16 + y / 16);
    SextetRoundTrip(y % 16 * 4 + z / 64);
    SextetRoundTrip(z % 64);
    GroupArithmetic(x, y, z);
  }

  lemma DecodeGroup(x: byte, y: byte, z: byte, rest: string)
    ensures Decode(Group(x, y, z) + rest)
         == match Decode(rest) case None => None case Some(r) => Some([x, y, z] + r)
  {
    var g := Group(x, y, z);
    var s := g + rest;
    assert s[0] == g[0] && s[1] == g[1] && s[2] == g[2] && s[3] == g[3];
    assert s[4..] == rest;
    QuadThree(x, y, z);
  }

  lemma DecodeEncodeOne(b: seq<byte>)
    requires |b| == 1
    ensures Decode(Encode(b)) == Some(b)
  {
    var x := b[0];
    assert Encode(b) == [EncodeSextet(x / 4), EncodeSextet(x % 4 * 16), '=', '='];
    QuadOne(x);
    assert b == [x];
  }

  lemma DecodeEncodeTwo(b: seq<byte>)
    requires |b| == 2
    ensures Decode(Encode(b)) == Some(b)
  {
    var x, y := b[0], b[1];
    assert Encode(b) == [EncodeSextet(x / 4), EncodeSextet(x % 4 * 16 + y / 16), EncodeSextet(y % 16 * 4), '='];
    QuadTwo(x, y);
    assert b == [x, y];
  }

  lemma EncodeGroup(b: seq<byte>)
    requires |b| >= 3
    ensures Encode(b) == Group(b[0], b[1], b[2]) + Encode(b[3..])
  {
  }

  lemma SplitThree<T>(b: seq<T>)
    requires |b| >= 3
    ensures b == [b[0], b[1], b[2]] + b[3..]
  {
  }

  /** Decoding an encoding gives back the bytes. */
  lemma {:induction false} DecodeEncode(b: seq<byte>)
    ensures Decode(Encode(b)) == Some(b)
  {
    if |b| == 0 {
      assert Encode(b) == "";
    } else if |b| == 1 {
      DecodeEncodeOne(b);
    } else if |b| == 2 {
      DecodeEncodeTwo(b);
    } else {
      EncodeGroup(b);
      SplitThree(b);
      DecodeEncode(b[3..]);
      DecodeGroup(b[0], b[1], b[2], Encode(b[3..]));
    }
  }

  /** An encoding never contains a `:`, so it can stand after the first `:` of a store key. */
  lemma EncodeHasNoColon(b: seq<byte>)
    ensures ':' !in Encode(b)
  {
  }
}
