/**
 * The UTF-8 encoding form, as Rust uses it for `String`:
 * `String::as_bytes` is `Encode` and `str::from_utf8` is `Decode`.
 * A Dafny `char` is a Unicode scalar value, exactly like a Rust `char`.
 */
module Utf8 {
  import opened Wrappers

  type Byte = b: int | 0 <= b < 0x100

  /** Continuation byte 10xxxxxx. */
  predicate IsCont(b: Byte) { 0x80 <= b <= 0xBF }

  /** The bytes of one scalar value: 1 to 4 bytes, shortest form. */
  function EncodeChar(c: char): (r: seq<Byte>)
    ensures 1 <= |r| <= 4
    ensures |r| == 1 <==> (c as int) < 0x80
    ensures |r| == 1 ==> r[0] == c as int
    ensures |r| > 1 ==> forall i :: 0 <= i < |r| ==> r[i] >= 0x80
  {
    var cp := c as int;
    if cp < 0x80 then [cp]
    else if cp < 0x800 then [0xC0 + cp / 64, 0x80 + cp % 64]
    else if cp < 0x1_0000 then [0xE0 + cp / 4096, 0x80 + (cp / 64) % 64, 0x80 + cp % 64]
    else [0xF0 + cp / 262144, 0x80 + (cp / 4096) % 64, 0x80 + (cp / 64) % 64, 0x80 + cp % 64]
  }

  /** `String::as_bytes`: the UTF-8 encoding of a whole string. */
  function Encode(s: string): (r: seq<Byte>)
    ensures |r| >= |s|
  {
    if s == [] then [] else EncodeChar(s[0]) + Encode(s[1..])
  }

  /**
   * Decodes the first scalar value of `b`, following the well-formed byte
   * sequences of the Unicode standard (Table 3-7): no overlong forms, no
   * surrogates, nothing above U+10FFFF. Returns the value and its width.
   */
  function DecodeFirst(b: seq<Byte>): (r: Option<(char, nat)>)
    requires b != []
    ensures r.Some? ==> 1 <= r.value.1 <= |b| && b[..r.value.1] == EncodeChar(r.value.0)
  {
    var b0: int := b[0];
    var b1: int := if |b| > 1 then b[1] else 0;
    var b2: int := if |b| > 2 then b[2] else 0;
    var b3: int := if |b| > 3 then b[3] else 0;
    if b0 < 0x80 then
      Some((b0 as char, 1))
    else if 0xC2 <= b0 <= 0xDF && |b| >= 2 && IsCont(b1) then
      EncodeTwo(b0 - 0xC0, b1 - 0x80);
      Some((((b0 - 0xC0) * 64 + (b1 - 0x80)) as char, 2))
    else if 0xE0 <= b0 <= 0xEF && |b| >= 3 && IsCont(b1) && IsCont(b2)
      && (b0 != 0xE0 || b1 >= 0xA0) && (b0 != 0xED || b1 <= 0x9F) then
      EncodeThree(b0 - 0xE0, b1 - 0x80, b2 - 0x80);
      Some((((b0 - 0xE0) * 4096 + (b1 - 0x80) * 64 + (b2 - 0x80)) as char, 3))
    else if 0xF0 <= b0 <= 0xF4 && |b| >= 4 && IsCont(b1) && IsCont(b2) && IsCont(b3)
      && (b0 != 0xF0 || b1 >= 0x90) && (b0 != 0xF4 || b1 <= 0x8F) then
      EncodeFour(b0 - 0xF0, b1 - 0x80, b2 - 0x80, b3 - 0x80);
      Some((((b0 - 0xF0) * 262144 + (b1 - 0x80) * 4096 + (b2 - 0x80) * 64 + (b3 - 0x80)) as char, 4))
    else
      None
  }

  /** `str::from_utf8`: the string whose encoding `b` is, or `None` when `b` is not well-formed UTF-8. */
  function Decode(b: seq<Byte>): (r: Option<string>)
    ensures r.Some? ==> |r.value| <= |b| && (b != [] ==> r.value != [])
    decreases |b|
  {
    if b == [] then Some([])
    else
      match DecodeFirst(b)
      case None => None
      case Some((c, w)) =>
        match Decode(b[w..])
        case None => None
        case Some(rest) => Some([c] + rest)
  }

  /** Whatever `from_utf8` accepts encodes back to the same bytes. */
  lemma {:induction false} DecodeSound(b: seq<Byte>)
    ensures Decode(b).Some? ==> Encode(Decode(b).value) == b
    decreases |b|
  {
    if b != [] && DecodeFirst(b).Some? {
      var (c, w) := DecodeFirst(b).value;
      DecodeSound(b[w..]);
      if Decode(b[w..]).Some? {
        Reassemble(b, w, c, Decode(b[w..]).value);
      }
    }
  }

  lemma Reassemble(b: seq<Byte>, w: nat, c: char, rest: string)
    requires w <= |b| && b[..w] == EncodeChar(c) && Encode(rest) == b[w..]
    ensures Encode([c] + rest) == b
  {
    assert ([c] + rest)[0] == c && ([c] + rest)[1..] == rest;
    assert b == b[..w] + b[w..];
  }

  /** `b` is the encoding of some string, i.e. valid UTF-8. */
  ghost predicate IsUtf8(b: seq<Byte>) {
    exists s :: Encode(s) == b
  }

  lemma DivMod64(n: int, q: int, r: int)
    requires 0 <= r < 64 && n == q * 64 + r
    ensures n / 64 == q && n % 64 == r
  {
  }

  lemma DivMod4096(n: int, q: int, r: int)
    requires 0 <= r < 4096 && n == q * 4096 + r
    ensures n / 4096 == q && n % 4096 == r
  {
  }

  lemma DivMod262144(n: int, q: int, r: int)
    requires 0 <= r < 262144 && n == q * 262144 + r
    ensures n / 262144 == q && n % 262144 == r
  {
  }

  /** A two-byte sequence with payload bits `x`, `y` is the encoding of its scalar value. */
  lemma EncodeTwo(x: int, y: int)
    requires 2 <= x < 32 && 0 <= y < 64
    ensures EncodeChar((x * 64 + y) as char) == [0xC0 + x, 0x80 + y]
  {
    DivMod64(x * 64 + y, x, y);
  }

  /** A three-byte sequence with payload bits `x`, `y`, `z` outside the surrogates is the encoding of its scalar value. */
  lemma EncodeThree(x: int, y: int, z: int)
    requires 0 <= x < 16 && 0 <= y < 64 && 0 <= z < 64
    requires 0x800 <= x * 4096 + y * 64 + z && !(0xD800 <= x * 4096 + y * 64 + z <= 0xDFFF)
    ensures EncodeChar((x * 4096 + y * 64 + z) as char) == [0xE0 + x, 0x80 + y, 0x80 + z]
  {
    var cp := x * 4096 + y * 64 + z;
    DivMod64(cp, x * 64 + y, z);
    DivMod64(x * 64 + y, x, y);
    DivMod4096(cp, x, y * 64 + z);
  }

  /** A four-byte sequence with payload bits `w`, `x`, `y`, `z` up to U+10FFFF is the encoding of its scalar value. */
  lemma EncodeFour(w: int, x: int, y: int, z: int)
    requires 0 <= w < 8 && 0 <= x < 64 && 0 <= y < 64 && 0 <= z < 64
    requires 0x1_0000 <= w * 262144 + x * 4096 + y * 64 + z <= 0x10_FFFF
    ensures EncodeChar((w * 262144 + x * 4096 + y * 64 + z) as char) == [0xF0 + w, 0x80 + x, 0x80 + y, 0x80 + z]
  {
    var cp := w * 262144 + x * 4096 + y * 64 + z;
    DivMod64(cp, w * 4096 + x * 64 + y, z);
    DivMod64(w * 4096 + x * 64 + y, w * 64 + x, y);
    DivMod4096(cp, w * 64 + x, y * 64 + z);
    DivMod64(w * 64 + x, w, x);
    DivMod262144(cp, w, x * 4096 + y * 64 + z);
  }

  /** Encoding distributes over concatenation (the bytes of `format!` are the bytes of its pieces). */
  lemma {:induction false} EncodeAppend(a: string, b: string)
    ensures Encode(a + b) == Encode(a) + Encode(b)
    decreases |a|
  {
    if a == [] {
      assert a + b == b;
    } else {
      assert (a + b)[1..] == a[1..] + b;
      EncodeAppend(a[1..], b);
    }
  }

  lemma DecodeFirstTwo(x: int, y: int, rest: seq<Byte>)
    requires 2 <= x < 32 && 0 <= y < 64
    ensures DecodeFirst([0xC0 + x, 0x80 + y] + rest) == Some(((x * 64 + y) as char, 2))
  {
  }

  lemma DecodeFirstThree(x: int, y: int, z: int, rest: seq<Byte>)
    requires 0 <= x < 16 && 0 <= y < 64 && 0 <= z < 64
    requires 0x800 <= x * 4096 + y * 64 + z && !(0xD800 <= x * 4096 + y * 64 + z <= 0xDFFF)
    ensures DecodeFirst([0xE0 + x, 0x80 + y, 0x80 + z] + rest) == Some(((x * 4096 + y * 64 + z) as char, 3))
  {
  }

  lemma DecodeFirstFour(w: int, x: int, y: int, z: int, rest: seq<Byte>)
    requires 0 <= w < 8 && 0 <= x < 64 && 0 <= y < 64 && 0 <= z < 64
    requires 0x1_0000 <= w * 262144 + x * 4096 + y * 64 + z <= 0x10_FFFF
    ensures DecodeFirst([0xF0 + w, 0x80 + x, 0x80 + y, 0x80 + z] + rest)
         == Some(((w * 262144 + x * 4096 + y * 64 + z) as char, 4))
  {
  }

  /** The first scalar value of an encoding decodes back to itself. */
  lemma DecodeFirstEncode(c: char, rest: seq<Byte>)
    ensures DecodeFirst(EncodeChar(c) + rest) == Some((c, |EncodeChar(c)|))
  {
    var cp := c as int;
    var q, r := cp / 64, cp % 64;
    var q2, r2 := q / 64, q % 64;
    var q3, r3 := q2 / 64, q2 % 64;
    if cp < 0x80 {
    } else if cp < 0x800 {
      DecodeFirstTwo(q, r, rest);
    } else if cp < 0x1_0000 {
      DivMod4096(cp, q2, r2 * 64 + r);
      DecodeFirstThree(q2, r2, r, rest);
    } else {
      DivMod4096(cp, q2, r2 * 64 + r);
      DivMod262144(cp, q3, r3 * 4096 + r2 * 64 + r);
      DecodeFirstFour(q3, r3, r2, r, rest);
    }
  }

  /** Round trip: every string survives encoding followed by `from_utf8`. */
  lemma {:induction false} DecodeEncode(s: string)
    ensures Decode(Encode(s)) == Some(s)
    decreases |s|
  {
    if s != [] {
      var e, tail := EncodeChar(s[0]), Encode(s[1..]);
      assert Encode(s) == e + tail;
      DecodeFirstEncode(s[0], tail);
      assert (e + tail)[|e|..] == tail;
      DecodeEncode(s[1..]);
      assert Decode(Encode(s)) == Some([s[0]] + s[1..]);
      assert [s[0]] + s[1..] == s;
    }
  }

  /** `from_utf8` succeeds exactly on the byte strings that are the encoding of some string. */
  lemma DecodeSucceedsIff(b: seq<Byte>)
    ensures Decode(b).Some? <==> IsUtf8(b)
  {
    if IsUtf8(b) {
      var s :| Encode(s) == b;
      DecodeEncode(s);
    } else {
      DecodeSound(b);
    }
  }

  /** A string without carriage returns encodes to bytes without 0x0D. */
  lemma {:induction false} EncodeNoCr(s: string)
    requires '\r' !in s
    ensures 13 !in Encode(s)
    decreases |s|
  {
    if s != [] {
      assert s[0] in s;
      assert forall c :: c in s[1..] ==> c in s;
      EncodeNoCr(s[1..]);
    }
  }

  /** A string that starts with something other than a carriage return encodes to bytes that do too. */
  lemma EncodeHead(s: string)
    requires s != [] && s[0] != '\r'
    ensures Encode(s) != [] && Encode(s)[0] != 13
  {
  }
}
