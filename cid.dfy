/**
 * `calculateCID` (index.js): the dotted compiler version and both IPFS CIDs of the metadata file,
 * from the "solc" and "ipfs" entries of the decoded metadata map.
 */
module Cid {
  import opened Wrappers
  import opened Bytes
  import Cbor
  import Base58
  import Base32

  datatype CidResult = CidResult(solcVersion: string, cidV0: string, cidV1: string)

  /**
   * Why the model stops: the entry is absent, `null` or `undefined` (so indexing it or reading
   * its `length` is a TypeError in the source), or the "ipfs" entry holds decoded text rather
   * than bytes.
   */
  datatype CidError = MissingField(key: Cbor.Item) | NotByteString(key: Cbor.Item)

  /** The destructured entry `key` of the metadata, when it is neither absent nor `null`/`undefined`. */
  function Present(m: Cbor.Metadata, key: Cbor.Item): (r: Result<Cbor.Item, CidError>)
    ensures r.Ok? <==> key in m && m[key].Some? && !m[key].value.Unsupported?
    ensures r.Ok? ==> r.value == m[key].value
    ensures r.Err? ==> r.error == MissingField(key)
  {
    if key !in m || m[key].None? || m[key].value.Unsupported? then Err(MissingField(key))
    else Ok(m[key].value)
  }

  /** The destructured entry `key` of the metadata, when it is a byte string. */
  function Field(m: Cbor.Metadata, key: Cbor.Item): (r: Result<seq<Byte>, CidError>)
    ensures r.Ok? <==> key in m && m[key].Some? && m[key].value.ByteString?
    ensures r.Ok? ==> r.value == m[key].value.bytes
    ensures r.Err? ==> r.error.key == key
    ensures r.Err? ==> (r.error.NotByteString? <==> key in m && m[key].Some? && m[key].value.TextString?)
  {
    var e := Present(m, key);
    if e.Err? then Err(e.error)
    else if e.value.TextString? then Err(NotByteString(key))
    else Ok(e.value.bytes)
  }

  predicate IsDecimalDigit(c: char)
  {
    '0' <= c <= '9'
  }

  predicate IsDecimal(s: string)
  {
    forall i :: 0 <= i < |s| ==> IsDecimalDigit(s[i])
  }

  /** The decimal numeral JavaScript prints for a non-negative integer. */
  function Decimal(n: nat): (s: string)
    ensures |s| >= 1 && IsDecimal(s)
    ensures s[0] == '0' ==> n == 0
    decreases n
  {
    if n < 10 then [('0' as int + n) as char]
    else Decimal(n / 10) + [('0' as int + n % 10) as char]
  }

  /**
   * A template-literal component `${solc[k]}`: a byte prints as its decimal numeral, a character
   * of a text entry as itself, and an index past the end as "undefined".
   */
  function Component(solc: Cbor.Item, k: nat): string
    requires !solc.Unsupported?
  {
    if solc.ByteString? then
      if k < |solc.bytes| then Decimal(solc.bytes[k]) else "undefined"
    else
      if k < |solc.utf8| then [solc.utf8[k] as char] else "undefined"
  }

  /** `${solc[0]}.${solc[1]}.${solc[2]}` */
  function Version(solc: Cbor.Item): string
    requires !solc.Unsupported?
  {
    Component(solc, 0) + "." + Component(solc, 1) + "." + Component(solc, 2)
  }

  /**
   * `calculateCID`. The version is formatted before either CID is computed, so a missing "solc"
   * is the error reported when both entries are missing; a text "solc" is formatted by character.
   */
  function CalculateCid(m: Cbor.Metadata): (r: Result<CidResult, CidError>)
    ensures r.Ok? <==> Present(m, Cbor.SolcKey).Ok? && Field(m, Cbor.IpfsKey).Ok?
    ensures Present(m, Cbor.SolcKey).Err? ==> r == Err(MissingField(Cbor.SolcKey))
    ensures Present(m, Cbor.SolcKey).Ok? && Field(m, Cbor.IpfsKey).Err? ==> r == Err(Field(m, Cbor.IpfsKey).error)
    ensures r.Ok? ==>
      var ipfs := Field(m, Cbor.IpfsKey).value;
      && r.value.solcVersion == Version(Present(m, Cbor.SolcKey).value)
      && r.value.cidV0 == Base58.CidV0(ipfs)
      && r.value.cidV1 == Base32.CidV1(ipfs)
  {
    var solc := Present(m, Cbor.SolcKey);
    if solc.Err? then Err(solc.error)
    else
      var ipfs := Field(m, Cbor.IpfsKey);
      if ipfs.Err? then Err(ipfs.error)
      else Ok(CidResult(Version(solc.value), Base58.CidV0(ipfs.value), Base32.CidV1(ipfs.value)))
  }

  /** Only the "ipfs" and "solc" entries matter: maps that agree on those two give the same result. */
  lemma CalculateCidReadsTwoKeys(m1: Cbor.Metadata, m2: Cbor.Metadata)
    requires Cbor.IpfsKey in m1 <==> Cbor.IpfsKey in m2
    requires Cbor.IpfsKey in m1 ==> m1[Cbor.IpfsKey] == m2[Cbor.IpfsKey]
    requires Cbor.SolcKey in m1 <==> Cbor.SolcKey in m2
    requires Cbor.SolcKey in m1 ==> m1[Cbor.SolcKey] == m2[Cbor.SolcKey]
    ensures CalculateCid(m1) == CalculateCid(m2)
  {
    assert Present(m1, Cbor.SolcKey) == Present(m2, Cbor.SolcKey);
    assert Field(m1, Cbor.IpfsKey) == Field(m2, Cbor.IpfsKey);
  }

  /** Both CIDs decode back to the "ipfs" bytes (the CIDv0 one while its value fits in 46 digits). */
  lemma CalculateCidDecodes(m: Cbor.Metadata)
    requires CalculateCid(m).Ok?
    ensures var ipfs := Field(m, Cbor.IpfsKey).value;
      && Base32.DecodeCidV1(CalculateCid(m).value.cidV1) == Some(ipfs)
      && (BigEndian(ipfs) < Base58.Modulus ==>
            Base58.DecodeCidV0(CalculateCid(m).value.cidV0, |ipfs|) == Some(ipfs))
  {
    var ipfs := Field(m, Cbor.IpfsKey).value;
    Base32.CidV1RoundTrip(ipfs);
    if BigEndian(ipfs) < Base58.Modulus {
      Base58.CidV0RoundTrip(ipfs);
    }
  }

  /** The length of the leading run of decimal digits. */
  function DigitRun(s: string): (k: nat)
    ensures k <= |s| && IsDecimal(s[..k])
    ensures k < |s| ==> !IsDecimalDigit(s[k])
  {
    if s != [] && IsDecimalDigit(s[0]) then
      var k := 1 + DigitRun(s[1..]);
      assert s[..k] == [s[0]] + s[1..][..k - 1];
      k
    else 0
  }

  /** The value of a decimal numeral. */
  function DecimalValue(s: string): nat
    requires IsDecimal(s)
  {
    if s == [] then 0 else DecimalValue(s[..|s| - 1]) * 10 + (s[|s| - 1] as int - '0' as int)
  }

  /** A numeral at the front of `s`, and what follows it. */
  function ReadNumber(s: string): Option<(nat, string)>
  {
    var k := DigitRun(s);
    if k == 0 then None else Some((DecimalValue(s[..k]), s[k..]))
  }

  /** Reading a version string `a.b.c` back into its three numbers. */
  function ParseVersion(s: string): (r: Option<seq<nat>>)
    ensures r.Some? ==> |r.value| == 3
  {
    var a := ReadNumber(s);
    if a.None? || a.value.1 == [] || a.value.1[0] != '.' then None
    else
      var b := ReadNumber(a.value.1[1..]);
      if b.None? || b.value.1 == [] || b.value.1[0] != '.' then None
      else
        var c := ReadNumber(b.value.1[1..]);
        if c.None? || c.value.1 != [] then None
        else Some([a.value.0, b.value.0, c.value.0])
  }

  lemma {:induction false} DecimalValueOf(n: nat)
    ensures DecimalValue(Decimal(n)) == n
    decreases n
  {
    if n >= 10 {
      var s := Decimal(n);
      assert s[..|s| - 1] == Decimal(n / 10);
      DecimalValueOf(n / 10);
    }
  }

  lemma {:induction false} DigitRunOf(digits: string, rest: string)
    requires IsDecimal(digits)
    requires rest == [] || !IsDecimalDigit(rest[0])
    ensures DigitRun(digits + rest) == |digits|
  {
    if digits != [] {
      assert (digits + rest)[1..] == digits[1..] + rest;
      DigitRunOf(digits[1..], rest);
    } else {
      assert digits + rest == rest;
    }
  }

  /** A non-empty numeral followed by a dot or by nothing reads back as its value. */
  lemma ReadNumeral(digits: string, rest: string)
    requires |digits| >= 1 && IsDecimal(digits)
    requires rest == [] || rest[0] == '.'
    ensures ReadNumber(digits + rest) == Some((DecimalValue(digits), rest))
  {
    var s := digits + rest;
    DigitRunOf(digits, rest);
    assert s[..|digits|] == digits;
    assert s[|digits|..] == rest;
  }

  lemma AfterDot(s: string)
    ensures ("." + s)[1..] == s
  {
  }

  /** Three numerals joined by dots read back as their three values. */
  lemma DottedRead(a: string, b: string, c: string)
    requires |a| >= 1 && IsDecimal(a) && |b| >= 1 && IsDecimal(b) && |c| >= 1 && IsDecimal(c)
    ensures ParseVersion(a + "." + b + "." + c) == Some([DecimalValue(a), DecimalValue(b), DecimalValue(c)])
  {
    var tail := "." + c;
    var mid := "." + (b + tail);
    ReadNumeral(a, mid);
    AfterDot(b + tail);
    ReadNumeral(b, tail);
    AfterDot(c);
    assert c + [] == c;
    ReadNumeral(c, []);
    Regroup(a, ".", b, ".", c);
  }

  lemma Regroup(a: string, b: string, c: string, d: string, e: string)
    ensures a + b + c + d + e == a + (b + (c + (d + e)))
  {
  }

  /** The decimal numerals of three numbers, joined by dots, read back as the three numbers. */
  lemma DottedRoundTrip(x: nat, y: nat, z: nat)
    ensures ParseVersion(Decimal(x) + "." + Decimal(y) + "." + Decimal(z)) == Some([x, y, z])
  {
    DottedRead(Decimal(x), Decimal(y), Decimal(z));
    DecimalValueOf(x);
    DecimalValueOf(y);
    DecimalValueOf(z);
  }

  lemma VersionBytes(solc: seq<Byte>)
    requires |solc| >= 3
    ensures Version(Cbor.ByteString(solc)) == Decimal(solc[0]) + "." + Decimal(solc[1]) + "." + Decimal(solc[2])
  {
  }

  /** The version string of three bytes reads back as those three bytes. */
  lemma VersionRoundTrip(solc: seq<Byte>)
    requires |solc| >= 3
    ensures ParseVersion(Version(Cbor.ByteString(solc))) == Some([solc[0] as nat, solc[1] as nat, solc[2] as nat])
  {
    VersionBytes(solc);
    DottedRoundTrip(solc[0], solc[1], solc[2]);
  }

  /** Different compiler versions print differently. */
  lemma VersionInjective(s1: seq<Byte>, s2: seq<Byte>)
    requires |s1| >= 3 && |s2| >= 3
    requires Version(Cbor.ByteString(s1)) == Version(Cbor.ByteString(s2))
    ensures s1[..3] == s2[..3]
  {
    VersionRoundTrip(s1);
    VersionRoundTrip(s2);
    assert s1[..3] == [s1[0], s1[1], s1[2]];
    assert s2[..3] == [s2[0], s2[1], s2[2]];
  }

  /** A version array shorter than three prints "undefined" in the missing places. */
  lemma VersionShort()
    ensures Version(Cbor.ByteString([0, 8])) == "0.8.undefined"
    ensures Version(Cbor.ByteString([])) == "undefined.undefined.undefined"
  {
  }

  /**
   * The end-to-end case: the compiler's two-entry metadata map with a sha2-256 multihash and
   * version bytes a, b, c gives the version "a.b.c", a 46-character CIDv0 starting with 'Q' and
   * a 59-character CIDv1 starting with "bafybei".
   */
  lemma CalculateCidScenario(digest: seq<Byte>, version: seq<Byte>)
    requires |digest| == 32 && |version| == 3
    ensures var multihash := [0x12, 0x20] + digest;
      var items := [Cbor.IpfsKey, Cbor.ByteString(multihash), Cbor.SolcKey, Cbor.ByteString(version)];
      var r := CalculateCid(Cbor.Decode([0xa2] + Cbor.EncodeItems(items)));
      && r.Ok?
      && ParseVersion(r.value.solcVersion) == Some([version[0] as nat, version[1] as nat, version[2] as nat])
      && |r.value.cidV0| == 46 && r.value.cidV0[0] == 'Q'
      && |r.value.cidV1| == 59 && r.value.cidV1[..7] == "bafybei"
  {
    var multihash := [0x12, 0x20] + digest;
    var items := [Cbor.IpfsKey, Cbor.ByteString(multihash), Cbor.SolcKey, Cbor.ByteString(version)];
    Cbor.DecodeSolcMetadata(multihash, version);
    var m := Cbor.Decode([0xa2] + Cbor.EncodeItems(items));
    assert Field(m, Cbor.IpfsKey) == Ok(multihash);
    assert Present(m, Cbor.SolcKey) == Ok(Cbor.ByteString(version));
    VersionRoundTrip(version);
    Base58.CidV0Multihash(digest);
    Base32.CidV1Multihash(digest);
  }

  /** The version bytes 0, 8, 4 print as "0.8.4". */
  lemma VersionExample()
    ensures Version(Cbor.ByteString([0, 8, 4])) == "0.8.4"
  {
  }

  /**
   * A text "solc" entry, as prerelease compilers write it, is no error: its first three
   * characters are printed with dots between them, and both CIDs are still computed.
   */
  lemma CalculateCidTextSolc(ipfs: seq<Byte>)
    ensures var m := map[Cbor.SolcKey := Some(Cbor.TextString([0x30, 0x2e, 0x38, 0x2e, 0x34])),
                         Cbor.IpfsKey := Some(Cbor.ByteString(ipfs))];
      CalculateCid(m) == Ok(CidResult("0...8", Base58.CidV0(ipfs), Base32.CidV1(ipfs)))
  {
    var solc := Cbor.TextString([0x30, 0x2e, 0x38, 0x2e, 0x34]);
    var m := map[Cbor.SolcKey := Some(solc), Cbor.IpfsKey := Some(Cbor.ByteString(ipfs))];
    assert Cbor.SolcKey != Cbor.IpfsKey;
    assert Present(m, Cbor.SolcKey) == Ok(solc);
    assert Field(m, Cbor.IpfsKey) == Ok(ipfs);
    assert Version(solc) == "0...8";
  }

  /** A text version of at least three characters prints as exactly five: three characters and two dots. */
  lemma VersionText(t: seq<Byte>)
    requires |t| >= 3
    ensures var v := Version(Cbor.TextString(t));
      && |v| == 5 && v[1] == '.' && v[3] == '.'
      && v[0] == t[0] as char && v[2] == t[1] as char && v[4] == t[2] as char
  {
  }
}
