/** `stableHash` (auto_fill.js): a 31-multiplier polynomial hash over the
    UTF-16 code units of a string, kept in 32 unsigned bits by `>>> 0`. */
module Hashing {

  type CodeUnit = u: int | 0 <= u < 0x1_0000

  const HashModulus: nat := 0x1_0000_0000

  /** The UTF-16 code units JavaScript stores for one Unicode scalar value:
      the value itself inside the Basic Multilingual Plane, else a surrogate pair. */
  function CharUnits(c: char): (r: seq<CodeUnit>)
    ensures c as int < 0x1_0000 ==> r == [c as int]
    ensures c as int >= 0x1_0000 ==>
              && |r| == 2
              && 0xD800 <= r[0] < 0xDC00 <= r[1] < 0xE000
              && 0x1_0000 + (r[0] as int - 0xD800) * 0x400 + (r[1] as int - 0xDC00) == c as int
  {
    var v := c as int;
    if v < 0x1_0000 then [v]
    else
      var w := v - 0x1_0000;
      assert w < 0x10_0000;
      [0xD800 + w / 0x400, 0xDC00 + w % 0x400]
  }

  /** The UTF-16 code units of a string, in order (what `charCodeAt` walks). */
  function CodeUnits(s: string): (r: seq<CodeUnit>)
    ensures |s| <= |r| <= 2 * |s|
  {
    if s == [] then [] else CodeUnits(s[..|s| - 1]) + CharUnits(s[|s| - 1])
  }

  /** JavaScript's `s.length`. */
  function Utf16Length(s: string): nat {
    |CodeUnits(s)|
  }

  /** The left fold `h := (h * 31 + u) mod 2^32` over the code units, from 0. */
  function HashUnits(u: seq<CodeUnit>): (h: nat)
    ensures h < HashModulus
  {
    if u == [] then 0 else (HashUnits(u[..|u| - 1]) * 31 + u[|u| - 1]) % HashModulus
  }

  function Hash(s: string): (h: nat)
    ensures h < HashModulus
  {
    HashUnits(CodeUnits(s))
  }

  /** The same polynomial over the integers, without wrap-around. */
  function Polynomial(u: seq<CodeUnit>): nat {
    if u == [] then 0 else Polynomial(u[..|u| - 1]) * 31 + u[|u| - 1]
  }

  lemma ModOfMultiple(a: nat, q: nat)
    ensures (a + q * HashModulus) % HashModulus == a % HashModulus
  {
  }

  /** The 32-bit truncation at every step equals one truncation at the end:
      `stableHash` is the integer polynomial `sum u[i] * 31^(n-1-i)` mod 2^32. */
  lemma {:induction false} HashIsPolynomialMod(u: seq<CodeUnit>)
    ensures HashUnits(u) == Polynomial(u) % HashModulus
  {
    if u != [] {
      var init := u[..|u| - 1];
      HashIsPolynomialMod(init);
      var p := Polynomial(init);
      var q := p / HashModulus;
      var h := HashUnits(init);
      assert p == h + q * HashModulus;
      var c := u[|u| - 1];
      calc {
        Polynomial(u) % HashModulus;
        (p * 31 + c) % HashModulus;
        { assert p * 31 + c == (h * 31 + c) + (q * 31) * HashModulus; }
        ((h * 31 + c) + (q * 31) * HashModulus) % HashModulus;
        { ModOfMultiple(h * 31 + c, q * 31); }
        (h * 31 + c) % HashModulus;
      }
    }
  }

  lemma HashOfEmpty()
    ensures Hash("") == 0
  {
  }

  /** `stableHash(input)`: the loop of auto_fill.js over `charCodeAt`. */
  method StableHash(input: string) returns (hash: nat)
    ensures hash == Hash(input)
    ensures hash < HashModulus
  {
    var units := CodeUnits(input);
    hash := 0;
    var i := 0;
    while i < |units|
      invariant 0 <= i <= |units|
      invariant hash == HashUnits(units[..i])
    {
      assert units[..i + 1][..i] == units[..i];
      hash := (hash * 31 + units[i]) % HashModulus;
      i := i + 1;
    }
    assert units[..i] == units;
  }
}
