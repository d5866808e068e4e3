/** UTF-8 validity (section 3 of RFC 3629): the texts both SSH parsers accept are the encodings of scalar values. */
module Utf8 {
  import opened Common
  import opened NameLists

  /** A Unicode scalar value. */
  type Scalar = x: int | 0 <= x < 0xD800 || 0xE000 <= x < 0x11_0000 witness 0

  function Encode(x: Scalar): (bytes: seq<u8>)
    ensures 1 <= |bytes| <= 4
  {
    if x < 0x80 then [x]
    else if x < 0x800 then [0xC0 + x / 0x40, 0x80 + x % 0x40]
    else if x < 0x1_0000 then [0xE0 + x / 0x1000, 0x80 + x / 0x40 % 0x40, 0x80 + x % 0x40]
    else [0xF0 + x / 0x4_0000, 0x80 + x / 0x1000 % 0x40, 0x80 + x / 0x40 % 0x40, 0x80 + x % 0x40]
  }

  function EncodeAll(xs: seq<Scalar>): seq<u8> {
    if xs == [] then [] else Encode(xs[0]) + EncodeAll(xs[1..])
  }

  lemma ScalarIsChar(x: Scalar)
    ensures CharLength(Encode(x)) == |Encode(x)|
  {
  }

  lemma TwoBytes(a: int, b: int)
    requires 2 <= a < 0x20 && 0 <= b < 0x40
    ensures var x := a * 0x40 + b; 0x80 <= x < 0x800 && Encode(x) == [0xC0 + a, 0x80 + b]
  {
    var x := a * 0x40 + b;
    assert x / 0x40 == a && x % 0x40 == b;
  }

  lemma ThreeBytes(a: int, b: int, c: int)
    requires 0 <= a < 0x10 && 0 <= b < 0x40 && 0 <= c < 0x40
    requires (a == 0 ==> 0x20 <= b) && (a == 0xD ==> b < 0x20)
    ensures var x := a * 0x1000 + b * 0x40 + c;
            && 0x800 <= x < 0x1_0000 && (x < 0xD800 || 0xE000 <= x)
            && Encode(x) == [0xE0 + a, 0x80 + b, 0x80 + c]
  {
    var x := a * 0x1000 + b * 0x40 + c;
    assert x / 0x40 == a * 0x40 + b && x % 0x40 == c;
    assert (a * 0x40 + b) % 0x40 == b && x / 0x1000 == a;
  }

  lemma FourBytes(a: int, b: int, c: int, d: int)
    requires 0 <= a < 5 && 0 <= b < 0x40 && 0 <= c < 0x40 && 0 <= d < 0x40
    requires (a == 0 ==> 0x10 <= b) && (a == 4 ==> b < 0x10)
    ensures var x := a * 0x4_0000 + b * 0x1000 + c * 0x40 + d;
            0x1_0000 <= x < 0x11_0000 && Encode(x) == [0xF0 + a, 0x80 + b, 0x80 + c, 0x80 + d]
  {
    var x := a * 0x4_0000 + b * 0x1000 + c * 0x40 + d;
    assert x / 0x40 == a * 0x1000 + b * 0x40 + c && x % 0x40 == d;
    assert (a * 0x1000 + b * 0x40 + c) % 0x40 == c;
    assert x / 0x1000 == a * 0x40 + b && (a * 0x40 + b) % 0x40 == b && x / 0x4_0000 == a;
  }

  lemma CharIsScalar(b: seq<u8>) returns (x: Scalar)
    requires CharLength(b) > 0
    ensures Encode(x) == b[..CharLength(b)]
  {
    var n := CharLength(b);
    if n == 1 {
      x := b[0];
      assert Encode(x) == [b[0]];
    } else if n == 2 {
      var b0: int, b1: int := b[0], b[1];
      TwoBytes(b0 - 0xC0, b1 - 0x80);
      hide Encode;
      x := (b0 - 0xC0) * 0x40 + (b1 - 0x80);
    } else if n == 3 {
      var b0: int, b1: int, b2: int := b[0], b[1], b[2];
      ThreeBytes(b0 - 0xE0, b1 - 0x80, b2 - 0x80);
      hide Encode;
      x := (b0 - 0xE0) * 0x1000 + (b1 - 0x80) * 0x40 + (b2 - 0x80);
    } else {
      var b0: int, b1: int, b2: int, b3: int := b[0], b[1], b[2], b[3];
      FourBytes(b0 - 0xF0, b1 - 0x80, b2 - 0x80, b3 - 0x80);
      hide Encode;
      x := (b0 - 0xF0) * 0x4_0000 + (b1 - 0x80) * 0x1000 + (b2 - 0x80) * 0x40 + (b3 - 0x80);
    }
  }

  lemma {:induction false} EncodedIsUtf8(xs: seq<Scalar>)
    ensures IsUtf8(EncodeAll(xs))
  {
    if xs != [] {
      var first, tail := Encode(xs[0]), EncodeAll(xs[1..]);
      EncodedIsUtf8(xs[1..]);
      ScalarIsChar(xs[0]);
      hide Encode;
      CharLengthIsLocal(first, first + tail);
      assert (first + tail)[|first|..] == tail;
    }
  }

  lemma {:induction false} Decoded(b: seq<u8>) returns (xs: seq<Scalar>)
    requires IsUtf8(b)
    ensures EncodeAll(xs) == b
  {
    if b == [] {
      xs := [];
    } else {
      var n := CharLength(b);
      var x := CharIsScalar(b);
      hide Encode, CharLength;
      var later := Decoded(b[n..]);
      xs := [x] + later;
      assert xs[1..] == later && b == b[..n] + b[n..];
    }
  }

  /** Valid UTF-8 is exactly what encodes scalar values: no surrogates, no overlong forms, nothing past 10FFFF. */
  lemma ValidExactly(b: seq<u8>)
    ensures IsUtf8(b) <==> exists xs :: EncodeAll(xs) == b
  {
    if IsUtf8(b) {
      var xs := Decoded(b);
    }
    if xs :| EncodeAll(xs) == b {
      EncodedIsUtf8(xs);
    }
  }
}
