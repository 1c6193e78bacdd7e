/**
 * The code-point view of a host string.  Host strings are sequences of
 * UTF-16 code units; iterating one with `for...of` yields its code points,
 * joining a high surrogate followed by a low surrogate into one supplementary
 * code point as in section 2.2 of RFC 2781, and yielding any other unit
 * (a lone surrogate included) as it is.
 */
module Utf16 {

  /** A UTF-16 code unit. */
  type CodeUnit = u: nat | u < 0x10000

  predicate IsHigh(u: nat) { 0xD800 <= u <= 0xDBFF }
  predicate IsLow(u: nat) { 0xDC00 <= u <= 0xDFFF }

  /** The supplementary code point a surrogate pair stands for. */
  function Combine(hi: nat, lo: nat): (cp: nat)
    requires IsHigh(hi) && IsLow(lo)
    ensures 0x10000 <= cp <= 0x10FFFF
  {
    0x10000 + (hi - 0xD800) * 0x400 + (lo - 0xDC00)
  }

  /** The number of units the code point at the front of `units` takes. */
  function StepAt(units: seq<CodeUnit>): (step: nat)
    requires |units| > 0
    ensures 1 <= step <= |units|
  {
    if |units| >= 2 && IsHigh(units[0]) && IsLow(units[1]) then 2 else 1
  }

  /** The code point at the front of `units`. */
  function CodePointAt(units: seq<CodeUnit>): (cp: nat)
    requires |units| > 0
    ensures cp <= 0x10FFFF
    ensures (cp >= 0x10000) == (StepAt(units) == 2)
  {
    if StepAt(units) == 2 then Combine(units[0], units[1]) else units[0]
  }

  /** The code points `for...of` yields, in order. */
  function CodePoints(units: seq<CodeUnit>): (cps: seq<nat>)
    ensures |cps| <= |units|
    ensures |units| > 0 ==> |cps| > 0
    decreases |units|
  {
    if units == [] then [] else [CodePointAt(units)] + CodePoints(units[StepAt(units)..])
  }

  /** Every code point iteration yields is at most U+10FFFF. */
  lemma {:induction false} CodePointsInRange(units: seq<CodeUnit>)
    ensures forall i :: 0 <= i < |CodePoints(units)| ==> CodePoints(units)[i] <= 0x10FFFF
  {
    if units != [] {
      CodePointsInRange(units[StepAt(units)..]);
    }
  }

  /** The UTF-16 form of one scalar value (one unit, or a surrogate pair). */
  function EncodeChar(c: char): (u: seq<CodeUnit>)
    ensures |u| == 1 || |u| == 2
  {
    var n := c as int;
    if n < 0x10000 then [n]
    else [0xD800 + (n - 0x10000) / 0x400, 0xDC00 + (n - 0x10000) % 0x400]
  }

  /** The UTF-16 form of a string, which is how the host holds it. */
  function Encode(s: string): seq<CodeUnit>
  {
    if s == [] then [] else EncodeChar(s[0]) + Encode(s[1..])
  }

  /** The scalar values of a string, as numbers. */
  function Scalars(s: string): (cps: seq<nat>)
    ensures |cps| == |s|
    ensures forall i :: 0 <= i < |s| ==> cps[i] == s[i] as nat
  {
    if s == [] then [] else [s[0] as nat] + Scalars(s[1..])
  }

  /** The front code point of an encoded character is that character. */
  lemma CodePointAtEncodeChar(c: char, rest: seq<CodeUnit>)
    ensures var u := EncodeChar(c) + rest;
      StepAt(u) == |EncodeChar(c)| && CodePointAt(u) == c as nat
  {
    var n := c as int;
    var e := EncodeChar(c);
    var u := e + rest;
    assert u[0] == e[0];
    if n >= 0x10000 {
      assert u[1] == e[1];
      var m := n - 0x10000;
      assert m == (m / 0x400) * 0x400 + m % 0x400;
    }
  }

  /**
   * Iterating the host form of a string yields exactly its scalar values, one
   * per character, in order.
   */
  lemma {:induction false} CodePointsEncode(s: string)
    ensures CodePoints(Encode(s)) == Scalars(s)
  {
    if s != [] {
      var e := EncodeChar(s[0]);
      var u := e + Encode(s[1..]);
      CodePointAtEncodeChar(s[0], Encode(s[1..]));
      assert u[|e|..] == Encode(s[1..]);
      CodePointsEncode(s[1..]);
    }
  }

  /** The fragment "é🙂a" is held as four code units, the emoji as a surrogate pair. */
  lemma ExampleFragmentUnits()
    ensures Encode("\U{E9}\U{1F642}a") == [0xE9, 0xD83D, 0xDE42, 0x61]
  {
  }

  /** Those four code units yield exactly three code points. */
  lemma ExampleFragmentCodePoints()
    ensures CodePoints([0xE9, 0xD83D, 0xDE42, 0x61]) == [0xE9, 0x1F642, 0x61]
  {
  }
}
