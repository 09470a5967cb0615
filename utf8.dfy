/**
 * UTF-8 as Python's codec implements it: `str.encode("utf-8")` and `bytes.decode("utf-8", errors)`
 * for the two error handlers the rewriters use. An ill-formed sequence is consumed as its maximal
 * well-formed prefix (at least one byte), which "replace" turns into U+FFFD and "ignore" drops.
 */
module Utf8 {
  import opened Wrappers
  import opened Seqs

  type byte = b: int | 0 <= b < 256

  datatype ErrorMode = Replace | Ignore

  const ReplacementChar: char := '\U{FFFD}'

  predicate IsAscii(b: byte) { b < 0x80 }

  predicate IsCont(b: byte) { 0x80 <= b <= 0xBF }

  /** The number of bytes a sequence with this first byte has; 0 for a byte that cannot start one. */
  function SeqLen(lead: byte): nat
  {
    if lead < 0x80 then 1
    else if 0xC2 <= lead <= 0xDF then 2
    else if 0xE0 <= lead <= 0xEF then 3
    else if 0xF0 <= lead <= 0xF4 then 4
    else 0
  }

  /** The range of the second byte: narrower after E0, ED, F0 and F4 (no overlong forms, no surrogates). */
  function SecondLo(lead: byte): byte { if lead == 0xE0 then 0xA0 else if lead == 0xF0 then 0x90 else 0x80 }

  function SecondHi(lead: byte): byte { if lead == 0xED then 0x9F else if lead == 0xF4 then 0x8F else 0xBF }

  /** How many of the bytes after a multi-byte lead continue it correctly, up to `n - 1`. */
  function ContinuedBy(bs: seq<byte>, n: nat): (m: nat)
    requires |bs| >= 1 && 2 <= n <= 4
    ensures m <= n - 1 && m < |bs|
  {
    if |bs| < 2 || !(SecondLo(bs[0]) <= bs[1] <= SecondHi(bs[0])) then 0
    else if n == 2 then 1
    else if |bs| < 3 || !IsCont(bs[2]) then 1
    else if n == 3 then 2
    else if |bs| < 4 || !IsCont(bs[3]) then 2
    else 3
  }

  predicate IsScalar(n: int) { 0 <= n < 0xD800 || 0xE000 <= n < 0x110000 }

  /** The character a complete well-formed sequence of `n` bytes stands for. */
  function CodePoint(bs: seq<byte>, n: nat): (cp: int)
    requires 2 <= n <= 4 && |bs| >= n && SeqLen(bs[0]) == n && ContinuedBy(bs, n) == n - 1
    ensures IsScalar(cp)
  {
    var b0, b1 := bs[0] as int, bs[1] as int;
    if n == 2 then (b0 - 0xC0) * 64 + (b1 - 0x80)
    else
      var b2 := bs[2] as int;
      if n == 3 then (b0 - 0xE0) * 4096 + (b1 - 0x80) * 64 + (b2 - 0x80)
      else (b0 - 0xF0) * 262144 + (b1 - 0x80) * 4096 + (b2 - 0x80) * 64 + (bs[3] as int - 0x80)
  }

  /** One decoding step: the number of bytes consumed and the character read, or None for an error. */
  function Step(bs: seq<byte>): (r: (nat, Option<char>))
    requires |bs| >= 1
    ensures 1 <= r.0 <= |bs|
  {
    var n := SeqLen(bs[0]);
    if n == 0 then (1, None)
    else if n == 1 then (1, Some(bs[0] as char))
    else
      var m := ContinuedBy(bs, n);
      if m == n - 1 then (n, Some(CodePoint(bs, n) as char)) else (1 + m, None)
  }

  function Emit(c: Option<char>, mode: ErrorMode): string
  {
    match c
    case Some(ch) => [ch]
    case None => if mode == Replace then [ReplacementChar] else []
  }

  /** `bytes.decode("utf-8", errors=mode)`. */
  function Decode(bs: seq<byte>, mode: ErrorMode): (r: string)
    ensures |r| <= |bs|
    ensures mode == Replace && bs != [] ==> r != []
    decreases |bs|
  {
    if bs == [] then []
    else
      var (n, c) := Step(bs);
      Emit(c, mode) + Decode(bs[n..], mode)
  }

  /** The UTF-8 form of one character. */
  function EncodeChar(c: char): (r: seq<byte>)
    ensures 1 <= |r| <= 4
  {
    var cp := c as int;
    if cp < 0x80 then [cp]
    else if cp < 0x800 then [0xC0 + cp / 64, 0x80 + cp % 64]
    else if cp < 0x10000 then [0xE0 + cp / 4096, 0x80 + (cp / 64) % 64, 0x80 + cp % 64]
    else [0xF0 + cp / 262144, 0x80 + (cp / 4096) % 64, 0x80 + (cp / 64) % 64, 0x80 + cp % 64]
  }

  /** `str.encode("utf-8")`. */
  function Encode(s: string): seq<byte>
  {
    if s == [] then [] else EncodeChar(s[0]) + Encode(s[1..])
  }

  /** Reading the encoding of `c` at the head of any byte sequence gives back `c`. */
  lemma StepEncodeChar(c: char, rest: seq<byte>)
    ensures Step(EncodeChar(c) + rest) == (|EncodeChar(c)|, Some(c))
  {
    var cp := c as int;
    var bs := EncodeChar(c) + rest;
    if cp < 0x80 {
    } else if cp < 0x800 {
      assert bs[0] == 0xC0 + cp / 64 && bs[1] == 0x80 + cp % 64;
      assert CodePoint(bs, 2) == (cp / 64) * 64 + cp % 64;
    } else if cp < 0x10000 {
      StepEncode3(c, rest);
    } else {
      StepEncode4(c, rest);
    }
  }

  lemma StepEncode3(c: char, rest: seq<byte>)
    requires 0x800 <= c as int < 0x10000
    ensures Step(EncodeChar(c) + rest) == (3, Some(c))
  {
    var cp := c as int;
    var bs := EncodeChar(c) + rest;
    var hi, mid, lo := cp / 4096, (cp / 64) % 64, cp % 64;
    assert cp == hi * 4096 + mid * 64 + lo by { DivMod64(cp); }
    assert bs[0] == 0xE0 + hi && bs[1] == 0x80 + mid && bs[2] == 0x80 + lo;
    assert hi == 0 ==> mid >= 32;
    assert hi == 13 ==> mid < 32;
    assert ContinuedBy(bs, 3) == 2;
    assert CodePoint(bs, 3) == cp;
  }

  lemma StepEncode4(c: char, rest: seq<byte>)
    requires 0x10000 <= c as int
    ensures Step(EncodeChar(c) + rest) == (4, Some(c))
  {
    var cp := c as int;
    var bs := EncodeChar(c) + rest;
    var top, hi, mid, lo := cp / 262144, (cp / 4096) % 64, (cp / 64) % 64, cp % 64;
    assert cp == top * 262144 + hi * 4096 + mid * 64 + lo by { DivMod64x3(cp); }
    assert bs[0] == 0xF0 + top && bs[1] == 0x80 + hi && bs[2] == 0x80 + mid && bs[3] == 0x80 + lo;
    assert top == 0 ==> hi >= 16;
    assert top == 4 ==> hi < 16;
    assert ContinuedBy(bs, 4) == 3;
    assert CodePoint(bs, 4) == cp;
  }

  lemma DivMod64(n: nat)
    ensures n == (n / 4096) * 4096 + ((n / 64) % 64) * 64 + n % 64
  {
    var q := n / 64;
    assert n == q * 64 + n % 64;
    assert q == (q / 64) * 64 + q % 64;
    assert q / 64 == n / 4096;
  }

  lemma DivMod64x3(n: nat)
    ensures n == (n / 262144) * 262144 + ((n / 4096) % 64) * 4096 + ((n / 64) % 64) * 64 + n % 64
  {
    DivMod64(n);
    var q := n / 4096;
    assert q == (q / 64) * 64 + q % 64;
    assert q / 64 == n / 262144;
  }

  /** Decoding what `str.encode("utf-8")` produced gives the text back, whatever the error handler. */
  lemma {:induction false} DecodeEncode(s: string, mode: ErrorMode)
    ensures Decode(Encode(s), mode) == s
  {
    if s != [] {
      var e := EncodeChar(s[0]);
      StepEncodeChar(s[0], Encode(s[1..]));
      assert (e + Encode(s[1..]))[|e|..] == Encode(s[1..]);
      DecodeEncode(s[1..], mode);
      assert [s[0]] + s[1..] == s;
    }
  }

  predicate AllAscii(bs: seq<byte>) { forall i :: 0 <= i < |bs| ==> IsAscii(bs[i]) }

  /** The characters of ASCII bytes. */
  function AsciiText(bs: seq<byte>): (r: string)
    requires AllAscii(bs)
    ensures |r| == |bs| && forall i :: 0 <= i < |bs| ==> r[i] as int == bs[i]
  {
    seq(|bs|, i requires 0 <= i < |bs| => bs[i] as char)
  }

  /** An ASCII byte is a character on its own. */
  lemma StepAscii(bs: seq<byte>)
    requires |bs| >= 1 && IsAscii(bs[0])
    ensures Step(bs) == (1, Some(bs[0] as char))
  {
  }

  /** Decoding a non-empty sequence: the first step's output, then the rest. */
  lemma DecodeStep(bs: seq<byte>, mode: ErrorMode)
    requires bs != []
    ensures Decode(bs, mode) == Emit(Step(bs).1, mode) + Decode(bs[Step(bs).0..], mode)
  {
  }

  lemma AsciiTextCons(a: seq<byte>)
    requires a != [] && AllAscii(a)
    ensures AsciiText(a) == [a[0] as char] + AsciiText(a[1..])
  {
  }

  /** ASCII text encodes to one byte per character, the character's code. */
  lemma {:induction false} EncodeAscii(s: string)
    requires forall i :: 0 <= i < |s| ==> s[i] as int < 0x80
    ensures AllAscii(Encode(s)) && AsciiText(Encode(s)) == s
  {
    if s != [] {
      EncodeAscii(s[1..]);
      var e := Encode(s);
      assert e == [s[0] as int] + Encode(s[1..]);
      assert e[1..] == Encode(s[1..]);
      AsciiTextCons(e);
      assert [s[0]] + s[1..] == s;
    }
  }

  /** ASCII bytes decode one character each, whatever follows them. */
  lemma {:induction false} DecodeAsciiPrefix(a: seq<byte>, b: seq<byte>, mode: ErrorMode)
    requires AllAscii(a)
    ensures Decode(a + b, mode) == AsciiText(a) + Decode(b, mode)
  {
    if a == [] {
      assert a + b == b;
    } else {
      var ab := a + b;
      assert ab[1..] == a[1..] + b;
      StepAscii(ab);
      DecodeStep(ab, mode);
      DecodeAsciiPrefix(a[1..], b, mode);
      AsciiTextCons(a);
      AppendAssoc([a[0] as char], AsciiText(a[1..]), Decode(b, mode));
    }
  }

  /** A step never reads across an ASCII byte, so it sees the same thing in `a` as in `a + b`. */
  lemma StepBeforeAscii(a: seq<byte>, b: seq<byte>)
    requires a != [] && (b == [] || IsAscii(b[0]))
    ensures Step(a + b) == Step(a)
  {
    var ab := a + b;
    var n := SeqLen(a[0]);
    if n >= 2 {
      assert ContinuedBy(ab, n) == ContinuedBy(a, n);
      if ContinuedBy(a, n) == n - 1 {
        assert ab[..n] == a[..n];
      }
    }
  }

  /** The first step of decoding `a + b` is that of `a` when `b` starts with an ASCII byte. */
  lemma DecodeFrontBeforeAscii(a: seq<byte>, b: seq<byte>, mode: ErrorMode)
    requires a != [] && (b == [] || IsAscii(b[0]))
    ensures Decode(a + b, mode) == Emit(Step(a).1, mode) + Decode(a[Step(a).0..] + b, mode)
  {
    StepBeforeAscii(a, b);
    var n := Step(a).0;
    assert (a + b)[n..] == a[n..] + b;
    DecodeStep(a + b, mode);
  }

  /** Decoding may be split in front of an ASCII byte. */
  lemma {:induction false} DecodeSplitBeforeAscii(a: seq<byte>, b: seq<byte>, mode: ErrorMode)
    requires b == [] || IsAscii(b[0])
    ensures Decode(a + b, mode) == Decode(a, mode) + Decode(b, mode)
    decreases |a|
  {
    if a == [] {
      assert a + b == b;
    } else {
      var rest, e := a[Step(a).0..], Emit(Step(a).1, mode);
      DecodeFrontBeforeAscii(a, b, mode);
      DecodeStep(a, mode);
      DecodeSplitBeforeAscii(rest, b, mode);
      AppendAssoc(e, Decode(rest, mode), Decode(b, mode));
    }
  }
}
