/**
 * Base64 with the standard alphabet and `=` padding (section 4 of RFC 4648), as Python's
 * `base64.b64encode` writes it and as `base64.b64decode` reads it without `validate`: characters
 * outside the alphabet are skipped, and a complete pad ends the input.
 */
module Base64 {
  import opened Wrappers
  import opened Utf8

  predicate IsBase64Char(c: char)
  {
    'A' <= c <= 'Z' || 'a' <= c <= 'z' || '0' <= c <= '9' || c == '+' || c == '/'
  }

  /** The six-bit value of an alphabet character. */
  function CharValue(c: char): (v: nat)
    requires IsBase64Char(c)
    ensures v < 64
  {
    if 'A' <= c <= 'Z' then c as int - 'A' as int
    else if 'a' <= c <= 'z' then c as int - 'a' as int + 26
    else if '0' <= c <= '9' then c as int - '0' as int + 52
    else if c == '+' then 62
    else 63
  }

  /** The alphabet character of a six-bit value. */
  function ValueChar(v: nat): (c: char)
    requires v < 64
    ensures IsBase64Char(c) && CharValue(c) == v
  {
    if v < 26 then (v + 'A' as int) as char
    else if v < 52 then (v - 26 + 'a' as int) as char
    else if v < 62 then (v - 52 + '0' as int) as char
    else if v == 62 then '+'
    else '/'
  }

  /** `base64.b64encode(data).decode("ascii")`. */
  function Encode(data: seq<byte>): (r: string)
    ensures |r| % 4 == 0
    decreases |data|
  {
    if |data| == 0 then []
    else if |data| == 1 then
      [ValueChar(data[0] / 4), ValueChar((data[0] % 4) * 16), '=', '=']
    else if |data| == 2 then
      [ValueChar(data[0] / 4), ValueChar((data[0] % 4) * 16 + data[1] / 16), ValueChar((data[1] % 16) * 4), '=']
    else
      Group(data[0], data[1], data[2]) + Encode(data[3..])
  }

  /** The four characters of three bytes. */
  function Group(x: byte, y: byte, z: byte): string
  {
    [ValueChar(x / 4), ValueChar((x % 4) * 16 + y / 16), ValueChar((y % 16) * 4 + z / 64), ValueChar(z % 64)]
  }

  /**
   * The decoder's state between characters: how many characters of the current group were read
   * (`quad`), the bits still waiting to complete a byte (`left`) and the pads seen since the last
   * data character.
   */
  predicate GoodState(quad: nat, left: nat)
  {
    (quad == 0 && left == 0) || (quad == 1 && left < 64) || (quad == 2 && left < 16) || (quad == 3 && left < 4)
  }

  /** The bytes decoded from `s[i..]` in the given state, or None when the input ends in mid-group. */
  function DecodeFrom(s: string, i: nat, quad: nat, left: nat, pads: nat): Option<seq<byte>>
    requires i <= |s| && GoodState(quad, left)
    decreases |s| - i
  {
    if i == |s| then (if quad == 0 then Some([]) else None)
    else if s[i] == '=' then
      if quad >= 2 && quad + pads + 1 >= 4 then Some([])
      else DecodeFrom(s, i + 1, quad, left, if quad >= 2 then pads + 1 else pads)
    else if !IsBase64Char(s[i]) then DecodeFrom(s, i + 1, quad, left, pads)
    else
      var v := CharValue(s[i]);
      if quad == 0 then DecodeFrom(s, i + 1, 1, v, 0)
      else if quad == 1 then Prepend(left * 4 + v / 16, DecodeFrom(s, i + 1, 2, v % 16, 0))
      else if quad == 2 then Prepend(left * 16 + v / 4, DecodeFrom(s, i + 1, 3, v % 4, 0))
      else Prepend(left * 64 + v, DecodeFrom(s, i + 1, 0, 0, 0))
  }

  function Prepend(b: byte, rest: Option<seq<byte>>): Option<seq<byte>>
  {
    match rest
    case None => None
    case Some(bs) => Some([b] + bs)
  }

  /** `base64.b64decode(s)`: None for a non-ASCII character or a bad length or padding. */
  function Decode(s: string): Option<seq<byte>>
  {
    if exists i :: 0 <= i < |s| && s[i] as int >= 128 then None
    else DecodeFrom(s, 0, 0, 0, 0)
  }

  /** Every character `b64encode` writes is ASCII, so the ASCII check of the decoder passes. */
  lemma {:induction false} EncodeIsAscii(data: seq<byte>)
    ensures forall i :: 0 <= i < |Encode(data)| ==> Encode(data)[i] as int < 128
    decreases |data|
  {
    if |data| >= 3 {
      EncodeIsAscii(data[3..]);
      var g := Group(data[0], data[1], data[2]);
      assert Encode(data) == g + Encode(data[3..]);
    }
  }

  /** Reading the four characters of one group yields its three bytes. */
  lemma DecodeGroup(s: string, i: nat, x: byte, y: byte, z: byte)
    requires i + 4 <= |s| && s[i..i + 4] == Group(x, y, z)
    ensures DecodeFrom(s, i, 0, 0, 0) == Prepend(x, Prepend(y, Prepend(z, DecodeFrom(s, i + 4, 0, 0, 0))))
  {
    var v0, v1, v2, v3 := x / 4, (x % 4) * 16 + y / 16, (y % 16) * 4 + z / 64, z % 64;
    assert s[i] == ValueChar(v0) && s[i + 1] == ValueChar(v1) && s[i + 2] == ValueChar(v2) && s[i + 3] == ValueChar(v3);
    GroupBits(x, y, z);
    DecodeQuad(s, i, v0, v1, v2, v3);
  }

  /** The bits of three bytes survive their split into four six-bit values. */
  lemma GroupBits(x: byte, y: byte, z: byte)
    ensures var v0, v1, v2, v3 := x / 4, (x % 4) * 16 + y / 16, (y % 16) * 4 + z / 64, z % 64;
      v0 * 4 + v1 / 16 == x && (v1 % 16) * 16 + v2 / 4 == y && (v2 % 4) * 64 + v3 == z
  {
    var v1, v2 := (x % 4) * 16 + y / 16, (y % 16) * 4 + z / 64;
    assert v1 / 16 == x % 4 && v1 % 16 == y / 16;
    assert v2 / 4 == y % 16 && v2 % 4 == z / 64;
  }

  /** The decoder's four steps over four alphabet characters: three bytes. */
  lemma DecodeQuad(s: string, i: nat, v0: nat, v1: nat, v2: nat, v3: nat)
    requires i + 4 <= |s| && v0 < 64 && v1 < 64 && v2 < 64 && v3 < 64
    requires s[i] == ValueChar(v0) && s[i + 1] == ValueChar(v1) && s[i + 2] == ValueChar(v2) && s[i + 3] == ValueChar(v3)
    ensures DecodeFrom(s, i, 0, 0, 0) ==
      Prepend(v0 * 4 + v1 / 16, Prepend((v1 % 16) * 16 + v2 / 4, Prepend((v2 % 4) * 64 + v3, DecodeFrom(s, i + 4, 0, 0, 0))))
  {
    var rest := DecodeFrom(s, i + 4, 0, 0, 0);
    assert DecodeFrom(s, i + 3, 3, v2 % 4, 0) == Prepend((v2 % 4) * 64 + v3, rest);
    assert DecodeFrom(s, i + 2, 2, v1 % 16, 0) == Prepend((v1 % 16) * 16 + v2 / 4, DecodeFrom(s, i + 3, 3, v2 % 4, 0));
  }

  /** The bits of two bytes survive their split into six-bit values. */
  lemma PairBits(x: byte, y: byte)
    ensures (x / 4) * 4 + ((x % 4) * 16 + y / 16) / 16 == x
    ensures (((x % 4) * 16 + y / 16) % 16) * 16 + ((y % 16) * 4) / 4 == y
  {
    var c1 := (x % 4) * 16 + y / 16;
    assert c1 / 16 == x % 4;
    assert c1 % 16 == y / 16;
  }

  /** A final group of one byte, written with two pads. */
  lemma DecodeLastOne(s: string, i: nat, data: seq<byte>)
    requires i <= |s| && s[i..] == Encode(data) && |data| == 1
    ensures DecodeFrom(s, i, 0, 0, 0) == Some(data)
  {
    var x := data[0];
    assert Encode(data) == [ValueChar(x / 4), ValueChar((x % 4) * 16), '=', '='];
    DecodeOneChar(s, i, x);
    assert data == [x];
  }

  /** The steps of the decoder over the one-byte final group. */
  lemma DecodeOneChar(s: string, i: nat, x: byte)
    requires i + 4 <= |s| && s[i + 2] == '=' && s[i + 3] == '='
    requires s[i] == ValueChar(x / 4) && s[i + 1] == ValueChar((x % 4) * 16)
    ensures DecodeFrom(s, i, 0, 0, 0) == Some([x])
  {
    var c0, c1 := x / 4, (x % 4) * 16;
    assert c0 * 4 + c1 / 16 == x && c1 % 16 == 0;
    assert DecodeFrom(s, i + 2, 2, 0, 0) == Some([]) by {
      assert DecodeFrom(s, i + 3, 2, 0, 1) == Some([]);
    }
    var one: seq<byte> := [x];
    assert one + [] == one;
    assert DecodeFrom(s, i + 1, 1, c0, 0) == Some(one);
  }

  /** A final group of two bytes, written with one pad. */
  lemma DecodeLastTwo(s: string, i: nat, data: seq<byte>)
    requires i <= |s| && s[i..] == Encode(data) && |data| == 2
    ensures DecodeFrom(s, i, 0, 0, 0) == Some(data)
  {
    var x, y := data[0], data[1];
    var c0, c1, c2 := x / 4, (x % 4) * 16 + y / 16, (y % 16) * 4;
    assert Encode(data) == [ValueChar(c0), ValueChar(c1), ValueChar(c2), '='];
    DecodeTwoChars(s, i, x, y);
    assert data == [x, y];
  }

  /** The steps of the decoder over the two-byte final group. */
  lemma DecodeTwoChars(s: string, i: nat, x: byte, y: byte)
    requires i + 4 <= |s| && s[i + 3] == '='
    requires s[i] == ValueChar(x / 4) && s[i + 1] == ValueChar((x % 4) * 16 + y / 16)
    requires s[i + 2] == ValueChar((y % 16) * 4)
    ensures DecodeFrom(s, i, 0, 0, 0) == Some([x, y])
  {
    var c0, c1, c2 := x / 4, (x % 4) * 16 + y / 16, (y % 16) * 4;
    PairBits(x, y);
    assert CharValue(s[i]) == c0 && CharValue(s[i + 1]) == c1 && CharValue(s[i + 2]) == c2;
    assert DecodeFrom(s, i + 3, 3, c2 % 4, 0) == Some([]);
    var last: seq<byte> := [y];
    assert last + [] == last && [x, y] == [x] + last;
    assert DecodeFrom(s, i + 2, 2, c1 % 16, 0) == Some(last);
  }

  /** The decoder reads back exactly the bytes the encoder wrote, from any position of a longer text. */
  lemma {:induction false} DecodeFromEncode(s: string, i: nat, data: seq<byte>)
    requires i <= |s| && s[i..] == Encode(data)
    ensures DecodeFrom(s, i, 0, 0, 0) == Some(data)
    decreases |data|
  {
    if |data| == 0 {
      assert i == |s|;
    } else if |data| == 1 {
      DecodeLastOne(s, i, data);
    } else if |data| == 2 {
      DecodeLastTwo(s, i, data);
    } else {
      var g := Group(data[0], data[1], data[2]);
      assert Encode(data) == g + Encode(data[3..]);
      assert s[i..i + 4] == g;
      assert s[i + 4..] == Encode(data[3..]);
      DecodeGroup(s, i, data[0], data[1], data[2]);
      DecodeFromEncode(s, i + 4, data[3..]);
      assert data == [data[0]] + ([data[1]] + ([data[2]] + data[3..]));
    }
  }

  /** `b64decode(b64encode(data)) == data`. */
  lemma DecodeEncode(data: seq<byte>)
    ensures Decode(Encode(data)) == Some(data)
  {
    EncodeIsAscii(data);
    DecodeFromEncode(Encode(data), 0, data);
  }
}
