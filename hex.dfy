/** Hexadecimal digits as `parseInt(_, 16)` reads them, and lowercase hex encoding. */
module Hex {
  import opened Bytes

  predicate IsHexDigit(c: char)
  {
    ('0' <= c <= '9') || ('a' <= c <= 'f') || ('A' <= c <= 'F')
  }

  predicate IsHexString(s: string)
  {
    forall i :: 0 <= i < |s| ==> IsHexDigit(s[i])
  }

  function DigitValue(c: char): (v: nat)
    requires IsHexDigit(c)
    ensures v < 16
  {
    if '0' <= c <= '9' then c as int - '0' as int
    else if 'a' <= c <= 'f' then c as int - 'a' as int + 10
    else c as int - 'A' as int + 10
  }

  /** `parseInt(s, 16)` of a string made only of hex digits. */
  function HexValue(s: string): (v: nat)
    requires IsHexString(s)
    ensures v < Pow(16, |s|)
  {
    if s == [] then 0 else HexValue(s[..|s| - 1]) * 16 + DigitValue(s[|s| - 1])
  }

  /** The lowercase digit that `DigitValue` reads as `n`. */
  function LowerDigit(n: nat): (c: char)
    requires n < 16
    ensures IsHexDigit(c) && DigitValue(c) == n
  {
    if n < 10 then ('0' as int + n) as char else ('a' as int + n - 10) as char
  }

  predicate IsLowerHexDigit(c: char)
  {
    ('0' <= c <= '9') || ('a' <= c <= 'f')
  }

  /** The characters that are paired off by `match(/.{2}/g)`; an odd last character is dropped. */
  function Paired(s: string): string
  {
    s[..2 * (|s| / 2)]
  }

  /** `parseInt(hi + lo, 16)` of one hex pair. */
  function PairValue(hi: char, lo: char): (b: Byte)
    requires IsHexDigit(hi) && IsHexDigit(lo)
  {
    16 * DigitValue(hi) + DigitValue(lo)
  }

  /** One byte per hex pair, in order (`match(/.{2}/g).map(v => parseInt(v, 16))`). */
  function PairsToBytes(s: string): (r: seq<Byte>)
    requires IsHexString(Paired(s))
    ensures |r| == |s| / 2
  {
    if |s| < 2 then []
    else
      assert forall i :: 0 <= i < 2 * ((|s| - 2) / 2) ==> Paired(s[2..])[i] == Paired(s)[i + 2];
      assert IsHexDigit(Paired(s)[0]) && IsHexDigit(Paired(s)[1]);
      [PairValue(s[0], s[1])] + PairsToBytes(s[2..])
  }

  /** Output byte `i` is the value of hex pair `2i..2i+1`. */
  lemma {:induction false} PairsToBytesAt(s: string, i: nat)
    requires IsHexString(Paired(s))
    requires i < |s| / 2
    ensures IsHexDigit(s[2 * i]) && IsHexDigit(s[2 * i + 1])
    ensures PairsToBytes(s)[i] == PairValue(s[2 * i], s[2 * i + 1])
  {
    assert Paired(s)[2 * i] == s[2 * i] && Paired(s)[2 * i + 1] == s[2 * i + 1];
    if i > 0 {
      assert forall k :: 0 <= k < 2 * ((|s| - 2) / 2) ==> Paired(s[2..])[k] == Paired(s)[k + 2];
      PairsToBytesAt(s[2..], i - 1);
    }
  }

  /** Two lowercase hex digits per byte. */
  function ToHex(b: seq<Byte>): (s: string)
    ensures |s| == 2 * |b|
    ensures forall i :: 0 <= i < |s| ==> IsLowerHexDigit(s[i])
  {
    if b == [] then [] else [LowerDigit(b[0] / 16), LowerDigit(b[0] % 16)] + ToHex(b[1..])
  }

  lemma {:induction false} ToHexAppend(a: seq<Byte>, b: seq<Byte>)
    ensures ToHex(a + b) == ToHex(a) + ToHex(b)
  {
    if a != [] {
      assert (a + b)[1..] == a[1..] + b;
      ToHexAppend(a[1..], b);
    } else {
      assert a + b == b;
    }
  }

  /** Reading back a lowercase hex encoding gives the bytes again. */
  lemma PairsToBytesToHex(b: seq<Byte>)
    ensures IsHexString(Paired(ToHex(b)))
    ensures PairsToBytes(ToHex(b)) == b
  {
    var s := ToHex(b);
    assert Paired(s) == s;
    var r := PairsToBytes(s);
    forall i | 0 <= i < |b| ensures r[i] == b[i] {
      ToHexAt(b, i);
      PairsToBytesAt(s, i);
      assert r[i] == 16 * (b[i] / 16) + b[i] % 16;
    }
  }

  lemma {:induction false} ToHexAt(b: seq<Byte>, i: nat)
    requires i < |b|
    ensures ToHex(b)[2 * i] == LowerDigit(b[i] / 16)
    ensures ToHex(b)[2 * i + 1] == LowerDigit(b[i] % 16)
  {
    if i > 0 { ToHexAt(b[1..], i - 1); }
  }

  /** Encoding what was read from an even-length lowercase hex string gives the string again. */
  lemma {:induction false} ToHexPairsToBytes(s: string)
    requires |s| % 2 == 0
    requires forall i :: 0 <= i < |s| ==> IsLowerHexDigit(s[i])
    ensures IsHexString(Paired(s))
    ensures ToHex(PairsToBytes(s)) == s
  {
    assert Paired(s) == s;
    if |s| >= 2 {
      var rest := s[2..];
      assert Paired(rest) == rest;
      ToHexPairsToBytes(rest);
      var hi, lo := DigitValue(s[0]), DigitValue(s[1]);
      var x := PairValue(s[0], s[1]);
      assert PairsToBytes(s) == [x] + PairsToBytes(rest);
      assert x / 16 == hi && x % 16 == lo;
      LowerDigitOf(s[0]);
      LowerDigitOf(s[1]);
      assert ([x] + PairsToBytes(rest))[1..] == PairsToBytes(rest);
      assert s == [s[0], s[1]] + rest;
    }
  }

  lemma LowerDigitOf(c: char)
    requires IsLowerHexDigit(c)
    ensures LowerDigit(DigitValue(c)) == c
  {
  }
}
