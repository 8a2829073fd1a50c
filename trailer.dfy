/**
 * Cutting the CBOR metadata out of the end of runtime bytecode (index.js `extractCBOR`).
 * The last four hex characters hold the big-endian byte length `cborLen`; the CBOR run
 * ends just before them. Solidity does not count those two bytes in `cborLen`, Vyper does.
 */
module Trailer {
  import opened Wrappers
  import opened Bytes
  import opened Hex
  import opened Language

  datatype ExtractError = MalformedBytecode

  function Min(a: int, b: int): int { if a < b then a else b }

  /** `s.slice(-4)`: the last four characters, or all of a shorter string. */
  function Trailer(s: string): (t: string)
    ensures |t| == Min(4, |s|) && t == s[|s| - |t|..]
  {
    s[|s| - Min(4, |s|)..]
  }

  /** JavaScript's `substring` clamps each index into `0..|s|`. */
  function Clamp(x: int, n: nat): (c: nat)
    ensures c <= n
  {
    if x < 0 then 0 else if x > n then n else x
  }

  /** `s.substring(start, end)`: clamp both indices, and swap them when start exceeds end. */
  function JsSubstring(s: string, start: int, end: int): string
  {
    var a, e := Clamp(start, |s|), Clamp(end, |s|);
    if a <= e then s[a..e] else s[e..a]
  }

  /** Hex characters between the CBOR run and the end of the string: 4 for Solidity, 0 otherwise. */
  function Adjustment(lang: Family): nat
  {
    if lang == Solidity then 4 else 0
  }

  /** `parseInt(bytecode.slice(-4), 16)`. */
  function CborLength(bytecode: string): nat
    requires IsHexString(Trailer(bytecode))
  {
    // For the empty string `parseInt` gives NaN, which makes both substring indices 0;
    // reading it as 0 here gives the same (empty) slice.
    HexValue(Trailer(bytecode))
  }

  /** The hex substring that is turned into bytes. */
  function CborSlice(bytecode: string, lang: Family): string
    requires IsHexString(Trailer(bytecode))
  {
    JsSubstring(bytecode, |bytecode| - Adjustment(lang) - 2 * CborLength(bytecode), |bytecode| - 4)
  }

  /** What `parseInt` can read without producing NaN: a hex trailer and hex pairs in the slice. */
  predicate Readable(bytecode: string, lang: Family)
  {
    IsHexString(Trailer(bytecode)) && IsHexString(Paired(CborSlice(bytecode, lang)))
  }

  /**
   * The CBOR bytes. A slice shorter than two characters makes `match` return null, and the
   * following `.map` throws: that is the malformed-bytecode error.
   */
  function ExtractCbor(bytecode: string, lang: Family := Solidity): (r: Result<seq<Byte>, ExtractError>)
    requires Readable(bytecode, lang)
    ensures r.Err? <==> |CborSlice(bytecode, lang)| < 2
    ensures r.Ok? ==> |r.value| == |CborSlice(bytecode, lang)| / 2 >= 1
  {
    var cbor := CborSlice(bytecode, lang);
    if |cbor| < 2 then Err(MalformedBytecode) else Ok(PairsToBytes(cbor))
  }

  /** A Solidity length that fits: exactly `cborLen` bytes, read pair by pair from just before the trailer. */
  lemma ExtractSolidity(bytecode: string)
    requires |bytecode| >= 4 && IsHexString(bytecode[|bytecode| - 4..])
    requires var n := CborLength(bytecode); 1 <= n && 2 * n + 4 <= |bytecode|
    requires IsHexString(bytecode[|bytecode| - 4 - 2 * CborLength(bytecode)..])
    ensures Readable(bytecode, Solidity)
    ensures var n := CborLength(bytecode);
      var start := |bytecode| - 4 - 2 * n;
      && CborSlice(bytecode, Solidity) == bytecode[start..|bytecode| - 4]
      && ExtractCbor(bytecode, Solidity) == Ok(PairsToBytes(bytecode[start..|bytecode| - 4]))
      && |ExtractCbor(bytecode, Solidity).value| == n
  {
    var n := CborLength(bytecode);
    var start := |bytecode| - 4 - 2 * n;
    var cbor := CborSlice(bytecode, Solidity);
    assert cbor == bytecode[start..|bytecode| - 4];
    assert Paired(cbor) == cbor;
    HexSubstring(bytecode[start..], 0, 2 * n);
    assert bytecode[start..][0..2 * n] == cbor;
  }

  /** With lowercase hex, the blob re-encoded and followed by the trailer is the bytecode's suffix. */
  lemma ExtractSolidityRoundTrip(bytecode: string)
    requires |bytecode| >= 4 && IsHexString(bytecode[|bytecode| - 4..])
    requires var n := CborLength(bytecode); 1 <= n && 2 * n + 4 <= |bytecode|
    requires forall i :: |bytecode| - 4 - 2 * CborLength(bytecode) <= i < |bytecode| ==> IsLowerHexDigit(bytecode[i])
    ensures Readable(bytecode, Solidity)
    ensures ExtractCbor(bytecode, Solidity).Ok?
    ensures ToHex(ExtractCbor(bytecode, Solidity).value) + Trailer(bytecode) ==
      bytecode[|bytecode| - 4 - 2 * CborLength(bytecode)..]
  {
    var n := CborLength(bytecode);
    var start := |bytecode| - 4 - 2 * n;
    var end := |bytecode| - 4;
    LowerSlices(bytecode, start, end);
    ExtractSolidity(bytecode);
    var cbor := bytecode[start..end];
    var blob := ExtractCbor(bytecode, Solidity).value;
    assert blob == PairsToBytes(cbor);
    assert ToHex(blob) == cbor by {
      ToHexPairsToBytes(cbor);
    }
    assert Trailer(bytecode) == bytecode[end..];
    SliceSplit(bytecode, start, end);
  }

  lemma SliceSplit(s: string, i: nat, j: nat)
    requires i <= j <= |s|
    ensures s[i..] == s[i..j] + s[j..]
  {
  }

  /** Lowercase hex from `start` on: the suffix is hex and the slice up to `end` is lowercase hex. */
  lemma LowerSlices(s: string, start: nat, end: nat)
    requires start <= end <= |s|
    requires forall i :: start <= i < |s| ==> IsLowerHexDigit(s[i])
    ensures IsHexString(s[start..])
    ensures forall i :: 0 <= i < end - start ==> IsLowerHexDigit(s[start..end][i])
  {
    forall i | 0 <= i < |s| - start ensures IsHexDigit(s[start..][i]) {
      assert s[start..][i] == s[start + i];
    }
  }

  /** A Vyper length that fits counts the trailer: the blob is `cborLen - 2` bytes. */
  lemma ExtractVyper(bytecode: string, lang: Family)
    requires lang != Solidity
    requires |bytecode| >= 4 && IsHexString(bytecode[|bytecode| - 4..])
    requires var n := CborLength(bytecode); 3 <= n && 2 * n <= |bytecode|
    requires IsHexString(bytecode[|bytecode| - 2 * CborLength(bytecode)..])
    ensures Readable(bytecode, lang)
    ensures var n := CborLength(bytecode);
      var start := |bytecode| - 2 * n;
      && CborSlice(bytecode, lang) == bytecode[start..|bytecode| - 4]
      && ExtractCbor(bytecode, lang) == Ok(PairsToBytes(bytecode[start..|bytecode| - 4]))
      && |ExtractCbor(bytecode, lang).value| == n - 2
  {
    var n := CborLength(bytecode);
    var start := |bytecode| - 2 * n;
    var cbor := CborSlice(bytecode, lang);
    assert cbor == bytecode[start..|bytecode| - 4];
    assert Paired(cbor) == cbor;
    HexSubstring(bytecode[start..], 0, 2 * n - 4);
    assert bytecode[start..][0..2 * n - 4] == cbor;
  }

  /**
   * A Solidity length longer than the code does not fail: `substring` clamps the start to 0,
   * so the slice is everything before the trailer.
   */
  lemma ExtractSolidityOverlong(bytecode: string)
    requires |bytecode| >= 4 && IsHexString(Trailer(bytecode))
    requires 2 * CborLength(bytecode) + 4 > |bytecode|
    ensures CborSlice(bytecode, Solidity) == bytecode[..|bytecode| - 4]
  {
  }

  /**
   * A Vyper length of 0 or 1 puts the start after the end; `substring` swaps them, so the
   * "CBOR" is cut out of the trailer itself.
   */
  lemma ExtractVyperTooShort(bytecode: string, lang: Family)
    requires lang != Solidity
    requires |bytecode| >= 4 && IsHexString(Trailer(bytecode))
    requires CborLength(bytecode) <= 1
    ensures CborSlice(bytecode, lang) == bytecode[|bytecode| - 4..|bytecode| - 2 * CborLength(bytecode)]
  {
  }

  /** A zero Solidity length leaves nothing to convert: the malformed-bytecode error. */
  lemma ExtractSolidityZeroLength(bytecode: string)
    requires IsHexString(Trailer(bytecode)) && CborLength(bytecode) == 0
    ensures Readable(bytecode, Solidity)
    ensures ExtractCbor(bytecode, Solidity) == Err(MalformedBytecode)
  {
    assert |CborSlice(bytecode, Solidity)| == 0;
  }

  lemma HexSubstring(s: string, i: nat, j: nat)
    requires IsHexString(s) && i <= j <= |s|
    ensures IsHexString(s[i..j])
  {
    assert forall k :: 0 <= k < j - i ==> s[i..j][k] == s[i + k];
  }

  /** The four lowercase hex digits of a two-byte length read back as that length. */
  lemma {:induction false} LengthFieldValue(n: nat)
    requires n < 65536
    ensures IsHexString(ToHex(ToBytes(n, 2)))
    ensures HexValue(ToHex(ToBytes(n, 2))) == n
  {
    var b := ToBytes(n, 2);
    var t := ToHex(b);
    ToHexAt(b, 0);
    ToHexAt(b, 1);
    var d0: nat, d1: nat, d2: nat, d3: nat := b[0] / 16, b[0] % 16, b[1] / 16, b[1] % 16;
    assert DigitValue(t[0]) == d0 && DigitValue(t[1]) == d1;
    assert DigitValue(t[2]) == d2 && DigitValue(t[3]) == d3;
    assert t[..3][..2] == t[..2] && t[..2][..1] == t[..1] && t[..1][..0] == [];
    assert HexValue(t[..1]) == d0;
    assert HexValue(t[..2]) == d0 * 16 + d1;
    assert HexValue(t[..3]) == (d0 * 16 + d1) * 16 + d2;
    assert t[..4] == t;
    assert HexValue(t) == ((d0 * 16 + d1) * 16 + d2) * 16 + d3;
    assert ToBytes(n, 2) == ToBytes(n / 256, 1) + [n % 256];
    assert ToBytes(n / 256, 1) == ToBytes(n / 256 / 256, 0) + [(n / 256) % 256];
    assert b[0] == n / 256 && b[1] == n % 256;
  }

  /** Code followed by a CBOR blob and its two-byte length extracts that blob (Solidity layout). */
  lemma ExtractSolidityLayout(code: string, blob: seq<Byte>)
    requires 1 <= |blob| < 65536
    ensures var bytecode := code + ToHex(blob) + ToHex(ToBytes(|blob|, 2));
      Readable(bytecode, Solidity) && ExtractCbor(bytecode, Solidity) == Ok(blob)
  {
    var field := ToHex(ToBytes(|blob|, 2));
    var bytecode := code + ToHex(blob) + field;
    LengthFieldValue(|blob|);
    assert Trailer(bytecode) == field;
    var start := |code|;
    assert CborSlice(bytecode, Solidity) == bytecode[start..|bytecode| - 4] == ToHex(blob);
    PairsToBytesToHex(blob);
  }

  /** Code followed by a CBOR blob and a length that counts the two length bytes extracts that blob (Vyper layout). */
  lemma ExtractVyperLayout(code: string, blob: seq<Byte>)
    requires 1 <= |blob| && |blob| + 2 < 65536
    ensures var bytecode := code + ToHex(blob) + ToHex(ToBytes(|blob| + 2, 2));
      Readable(bytecode, Vyper) && ExtractCbor(bytecode, Vyper) == Ok(blob)
  {
    var field := ToHex(ToBytes(|blob| + 2, 2));
    var bytecode := code + ToHex(blob) + field;
    LengthFieldValue(|blob| + 2);
    assert Trailer(bytecode) == field;
    var start := |code|;
    assert CborSlice(bytecode, Vyper) == bytecode[start..|bytecode| - 4] == ToHex(blob);
    PairsToBytesToHex(blob);
  }
}
