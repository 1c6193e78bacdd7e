/**
 * UTF-8 as defined in section 3 of RFC 3629, which is what the host's
 * TextEncoder produces and its TextDecoder accepts.  Strings are Dafny
 * strings, whose characters are Unicode scalar values.
 */
module Utf8 {
  import opened Wrappers

  /** A byte of linear memory or of an encoded string. */
  newtype byte = b: int | 0 <= b < 0x100

  /** A continuation byte 10xxxxxx. */
  predicate IsCont(b: byte) { 0x80 <= b as int < 0xC0 }

  /** The one to four bytes of a single scalar value (the table in section 3 of RFC 3629). */
  function EncodeChar(c: char): (b: seq<byte>)
    ensures 1 <= |b| <= 4
    ensures (c as int < 0x80) == (|b| == 1)
    ensures |b| == 1 ==> b[0] as int == c as int
    ensures |b| > 1 ==> forall i :: 0 <= i < |b| ==> b[i] as int >= 0x80
  {
    var n := c as int;
    if n < 0x80 then
      [n as byte]
    else if n < 0x800 then
      [(0xC0 + n / 0x40) as byte, (0x80 + n % 0x40) as byte]
    else if n < 0x10000 then
      [(0xE0 + n / 0x1000) as byte, (0x80 + (n / 0x40) % 0x40) as byte, (0x80 + n % 0x40) as byte]
    else
      [(0xF0 + n / 0x40000) as byte, (0x80 + (n / 0x1000) % 0x40) as byte,
       (0x80 + (n / 0x40) % 0x40) as byte, (0x80 + n % 0x40) as byte]
  }

  /** The encoding of a whole string, character by character. */
  function Encode(s: string): (b: seq<byte>)
    ensures |s| <= |b| <= 4 * |s|
  {
    if s == [] then [] else EncodeChar(s[0]) + Encode(s[1..])
  }

  /**
   * Decodes the first well-formed sequence at the front of `b` into its
   * scalar value and the number of bytes it takes.  Overlong forms,
   * surrogates and values above U+10FFFF are refused.
   */
  function DecodeFirst(b: seq<byte>): (r: Option<(char, nat)>)
    requires |b| > 0
    ensures r.Some? ==> 1 <= r.value.1 <= |b| && b[..r.value.1] == EncodeChar(r.value.0)
  {
    var b0 := b[0] as int;
    if b0 < 0x80 then
      Some((b0 as char, 1))
    else if 0xC2 <= b0 <= 0xDF && |b| >= 2 && IsCont(b[1]) then
      Decoded2(b);
      Some((Value2(b) as char, 2))
    else if 0xE0 <= b0 <= 0xEF && |b| >= 3 && IsCont(b[1]) && IsCont(b[2]) then
      var n := Value3(b);
      if n < 0x800 || 0xD800 <= n <= 0xDFFF then None
      else
        Decoded3(b);
        Some((n as char, 3))
    else if 0xF0 <= b0 <= 0xF4 && |b| >= 4 && IsCont(b[1]) && IsCont(b[2]) && IsCont(b[3]) then
      var n := Value4(b);
      if n < 0x10000 || n > 0x10FFFF then None
      else
        Decoded4(b);
        Some((n as char, 4))
    else
      None
  }

  /** The value carried by a two-, three- or four-byte sequence at the front of `b`. */
  function Value2(b: seq<byte>): int
    requires |b| >= 2
  {
    (b[0] as int - 0xC0) * 0x40 + (b[1] as int - 0x80)
  }

  function Value3(b: seq<byte>): int
    requires |b| >= 3
  {
    (b[0] as int - 0xE0) * 0x1000 + (b[1] as int - 0x80) * 0x40 + (b[2] as int - 0x80)
  }

  function Value4(b: seq<byte>): int
    requires |b| >= 4
  {
    (b[0] as int - 0xF0) * 0x40000 + (b[1] as int - 0x80) * 0x1000
      + (b[2] as int - 0x80) * 0x40 + (b[3] as int - 0x80)
  }

  lemma Decoded2(b: seq<byte>)
    requires |b| >= 2 && 0xC2 <= b[0] <= 0xDF && IsCont(b[1])
    ensures 0x80 <= Value2(b) < 0x800
    ensures b[..2] == EncodeChar(Value2(b) as char)
  {
    Split2(b[0] as int - 0xC0, b[1] as int - 0x80);
    assert b[..2] == [b[0], b[1]];
  }

  lemma Decoded3(b: seq<byte>)
    requires |b| >= 3 && 0xE0 <= b[0] <= 0xEF && IsCont(b[1]) && IsCont(b[2])
    requires 0x800 <= Value3(b) && !(0xD800 <= Value3(b) <= 0xDFFF)
    ensures Value3(b) < 0x10000
    ensures b[..3] == EncodeChar(Value3(b) as char)
  {
    Split3(b[0] as int - 0xE0, b[1] as int - 0x80, b[2] as int - 0x80);
    assert b[..3] == [b[0], b[1], b[2]];
  }

  lemma Decoded4(b: seq<byte>)
    requires |b| >= 4 && 0xF0 <= b[0] <= 0xF4 && IsCont(b[1]) && IsCont(b[2]) && IsCont(b[3])
    requires 0x10000 <= Value4(b) <= 0x10FFFF
    ensures b[..4] == EncodeChar(Value4(b) as char)
  {
    Split4(b[0] as int - 0xF0, b[1] as int - 0x80, b[2] as int - 0x80, b[3] as int - 0x80);
    assert b[..4] == [b[0], b[1], b[2], b[3]];
  }

  /** Decodes a byte sequence that is well-formed UTF-8 throughout; None otherwise. */
  function Decode(b: seq<byte>): (r: Option<string>)
    ensures r.Some? ==> Encode(r.value) == b
    decreases |b|
  {
    if b == [] then Some([])
    else
      var first := DecodeFirst(b);
      if first.None? then None
      else
        var c, k := first.value.0, first.value.1;
        var tail := Decode(b[k..]);
        if tail.None? then None
        else
          ConsEncode(c, tail.value, b, k);
          Some([c] + tail.value)
  }

  lemma ConsEncode(c: char, s: string, b: seq<byte>, k: nat)
    requires k <= |b| && b[..k] == EncodeChar(c) && b[k..] == Encode(s)
    ensures Encode([c] + s) == b
  {
    assert ([c] + s)[1..] == s;
    assert b == b[..k] + b[k..];
  }

  lemma Split2(q1: int, r: int)
    requires 0 <= r < 0x40 && 0 <= q1
    ensures (q1 * 0x40 + r) / 0x40 == q1 && (q1 * 0x40 + r) % 0x40 == r
  {
  }

  lemma Split3(q2: int, r1: int, r: int)
    requires 0 <= q2 && 0 <= r1 < 0x40 && 0 <= r < 0x40
    ensures var n := q2 * 0x1000 + r1 * 0x40 + r;
      n / 0x1000 == q2 && (n / 0x40) % 0x40 == r1 && n % 0x40 == r
  {
    var n := q2 * 0x1000 + r1 * 0x40 + r;
    assert n == (q2 * 0x40 + r1) * 0x40 + r;
    Split2(q2 * 0x40 + r1, r);
    Split2(q2, r1);
    assert n == q2 * 0x1000 + (r1 * 0x40 + r);
  }

  lemma Split4(q3: int, r2: int, r1: int, r: int)
    requires 0 <= q3 && 0 <= r2 < 0x40 && 0 <= r1 < 0x40 && 0 <= r < 0x40
    ensures var n := q3 * 0x40000 + r2 * 0x1000 + r1 * 0x40 + r;
      n / 0x40000 == q3 && (n / 0x1000) % 0x40 == r2 && (n / 0x40) % 0x40 == r1 && n % 0x40 == r
  {
    var n := q3 * 0x40000 + r2 * 0x1000 + r1 * 0x40 + r;
    var m := q3 * 0x40 + r2;
    assert n == m * 0x1000 + r1 * 0x40 + r;
    Split3(m, r1, r);
    Split2(q3, r2);
  }

  lemma Encode2(c: char)
    requires 0x80 <= c as int < 0x800
    ensures var e := EncodeChar(c);
      |e| == 2 && 0xC2 <= e[0] <= 0xDF && IsCont(e[1]) &&
      (e[0] as int - 0xC0) * 0x40 + (e[1] as int - 0x80) == c as int
  {
  }

  lemma Encode3(c: char)
    requires 0x800 <= c as int < 0x10000
    ensures var e := EncodeChar(c);
      |e| == 3 && 0xE0 <= e[0] <= 0xEF && IsCont(e[1]) && IsCont(e[2]) &&
      (e[0] as int - 0xE0) * 0x1000 + (e[1] as int - 0x80) * 0x40 + (e[2] as int - 0x80) == c as int
  {
    var n := c as int;
    assert n == (n / 0x1000) * 0x1000 + (n % 0x1000);
    assert n % 0x1000 == ((n / 0x40) % 0x40) * 0x40 + n % 0x40;
  }

  lemma Encode4(c: char)
    requires 0x10000 <= c as int
    ensures var e := EncodeChar(c);
      |e| == 4 && 0xF0 <= e[0] <= 0xF4 && IsCont(e[1]) && IsCont(e[2]) && IsCont(e[3]) &&
      (e[0] as int - 0xF0) * 0x40000 + (e[1] as int - 0x80) * 0x1000
        + (e[2] as int - 0x80) * 0x40 + (e[3] as int - 0x80) == c as int
  {
    var n := c as int;
    var a, r0 := n / 0x40, n % 0x40;
    var b, r1 := a / 0x40, a % 0x40;
    var q, r2 := b / 0x40, b % 0x40;
    assert n == a * 0x40 + r0;
    assert a == b * 0x40 + r1;
    assert b == q * 0x40 + r2;
    assert n == b * 0x1000 + (r1 * 0x40 + r0);
    assert n / 0x1000 == b;
    assert n == q * 0x40000 + (r2 * 0x1000 + r1 * 0x40 + r0);
    assert n / 0x40000 == q;
  }

  /** Decoding the front of an encoded character gives that character back. */
  lemma DecodeFirstEncodeChar(c: char, rest: seq<byte>)
    ensures DecodeFirst(EncodeChar(c) + rest) == Some((c, |EncodeChar(c)|))
  {
    var n := c as int;
    var e := EncodeChar(c);
    var b := e + rest;
    assert b[0] == e[0];
    if n < 0x80 {
    } else if n < 0x800 {
      Encode2(c);
      assert b[1] == e[1];
    } else if n < 0x10000 {
      Encode3(c);
      assert b[1] == e[1] && b[2] == e[2];
    } else {
      Encode4(c);
      assert b[1] == e[1] && b[2] == e[2] && b[3] == e[3];
    }
  }

  /** Decoding undoes encoding, for every string (RFC 3629 round trip). */
  lemma {:induction false} DecodeEncode(s: string)
    ensures Decode(Encode(s)) == Some(s)
  {
    if s != [] {
      var e := EncodeChar(s[0]);
      DecodeFirstEncodeChar(s[0], Encode(s[1..]));
      assert (e + Encode(s[1..]))[|e|..] == Encode(s[1..]);
      DecodeEncode(s[1..]);
      assert [s[0]] + s[1..] == s;
    }
  }

  /** Encoding distributes over concatenation. */
  lemma {:induction false} EncodeAppend(s: string, t: string)
    ensures Encode(s + t) == Encode(s) + Encode(t)
  {
    if s != [] {
      assert (s + t)[0] == s[0];
      assert (s + t)[1..] == s[1..] + t;
      EncodeAppend(s[1..], t);
    } else {
      assert s + t == t;
    }
  }

  /** The host encodes a string with its terminator appended: the encoding, then one zero. */
  lemma EncodeWithNul(s: string)
    ensures Encode(s + "\0") == Encode(s) + [0]
  {
    EncodeAppend(s, "\0");
    assert "\0"[1..] == [];
  }

  /** The only zero byte an encoding can contain is the encoding of U+0000. */
  lemma {:induction false} EncodeNoZero(s: string)
    requires '\0' !in s
    ensures 0 !in Encode(s)
  {
    if s != [] {
      assert s[0] != '\0';
      EncodeNoZero(s[1..]);
    }
  }

  // ------------------------------------------------ the host's default decoder

  /** The byte order mark, U+FEFF; its UTF-8 form is EF BB BF. */
  const Bom: char := '\U{FEFF}'

  /** `s` without one leading byte order mark, if it has one. */
  function StripBom(s: string): (r: string)
    ensures |s| > 0 && s[0] == Bom ==> [Bom] + r == s
    ensures (|s| == 0 || s[0] != Bom) ==> r == s
  {
    if |s| > 0 && s[0] == Bom then s[1..] else s
  }

  /**
   * What a `TextDecoder` built with no options returns for well-formed
   * input: the decoded string, less one leading byte order mark (the
   * WHATWG Encoding Standard's `ignoreBOM` is false by default).
   */
  function TextDecode(b: seq<byte>): (r: Option<string>)
    ensures r.Some? <==> Decode(b).Some?
    ensures r.Some? && StartsWithBom(b) ==> [0xEF, 0xBB, 0xBF] + Encode(r.value) == b
    ensures r.Some? && !StartsWithBom(b) ==> Encode(r.value) == b
  {
    match Decode(b)
    case None => None
    case Some(s) =>
      assert |s| > 0 && s[0] == Bom ==> Encode(s) == EncodeChar(Bom) + Encode(s[1..]);
      DecodeBom(b);
      Some(StripBom(s))
  }

  /** `b` begins with EF BB BF, the UTF-8 form of the byte order mark. */
  predicate StartsWithBom(b: seq<byte>)
  {
    |b| >= 3 && b[0] == 0xEF && b[1] == 0xBB && b[2] == 0xBF
  }

  /** Well-formed input that begins with EF BB BF decodes to a string that begins with U+FEFF. */
  lemma DecodeBom(b: seq<byte>)
    ensures StartsWithBom(b) && Decode(b).Some? ==> |Decode(b).value| > 0 && Decode(b).value[0] == Bom
  {
    if StartsWithBom(b) {
      assert Value3(b) == 0xFEFF;
      assert DecodeFirst(b) == Some((Bom, 3));
    }
  }

  /**
   * The default decoder inverts the encoder on every string that does not
   * start with U+FEFF, and drops that character from one that does.
   */
  lemma TextDecodeEncode(s: string)
    ensures (|s| == 0 || s[0] != Bom) ==> TextDecode(Encode(s)) == Some(s)
    ensures |s| > 0 && s[0] == Bom ==> TextDecode(Encode(s)) == Some(s[1..])
  {
    DecodeEncode(s);
  }

  /** "\U{FEFF}A" is written as EF BB BF 41, and the default decoder reads that back as "A". */
  lemma BomDropped()
    ensures Encode([Bom, 'A']) == [0xEF, 0xBB, 0xBF, 0x41]
    ensures TextDecode([0xEF, 0xBB, 0xBF, 0x41]) == Some("A")
  {
    assert EncodeChar(Bom) == [0xEF, 0xBB, 0xBF];
    assert [Bom, 'A'][1..] == "A" && "A"[1..] == [];
    assert Encode("A") == [0x41];
    TextDecodeEncode([Bom, 'A']);
  }
}
