/**
 * CIDv1: the multihash behind the codes 0x01 (CID version 1) and 0x70 (dag-pb), written in
 * lowercase RFC 4648 base32 without padding after the multibase prefix 'b'
 * (index.js `solcMultihashToCIDv1`). The encoder shifts each byte into a bit buffer and takes
 * five bits off its top while more than five are waiting; the last bits are filled with zeros.
 */
module Base32 {
  import opened Wrappers
  import opened Bytes
  import opened Alphabets

  /** The lowercase RFC 4648 base32 alphabet `abcdefghijklmnopqrstuvwxyz234567`. */
  const Alphabet: string := Run('a', 26) + Run('2', 6)

  /** The two bytes put in front of the multihash: CID version 1, then content type dag-pb. */
  const Header: seq<Byte> := [0x01, 0x70]

  predicate IsDigits(d: seq<nat>)
  {
    forall i :: 0 <= i < |d| ==> d[i] < 32
  }

  /** The low `w` bits of `v`, most significant first. */
  function NatBits(v: nat, w: nat): (r: seq<bool>)
    ensures |r| == w
  {
    if w == 0 then [] else NatBits(v / 2, w - 1) + [v % 2 == 1]
  }

  /** Bits read as a binary number, most significant first. */
  function BitsVal(s: seq<bool>): nat
  {
    if s == [] then 0 else BitsVal(s[..|s| - 1]) * 2 + (if s[|s| - 1] then 1 else 0)
  }

  /** The bits of a byte string, eight per byte, most significant first. */
  function Bits(bytes: seq<Byte>): (r: seq<bool>)
    ensures |r| == 8 * |bytes|
  {
    if bytes == [] then [] else Bits(bytes[..|bytes| - 1]) + NatBits(bytes[|bytes| - 1], 8)
  }

  /** The bits that base32 digits stand for, five per digit. */
  function DigitBits(d: seq<nat>): (r: seq<bool>)
    ensures |r| == 5 * |d|
  {
    if d == [] then [] else DigitBits(d[..|d| - 1]) + NatBits(d[|d| - 1], 5)
  }

  /** Five bits per digit from the front; a last group shorter than five is filled with zero bits. */
  function Groups(s: seq<bool>): (d: seq<nat>)
    ensures |d| == (|s| + 4) / 5
    decreases |s|
  {
    if s == [] then []
    else if |s| <= 5 then [BitsVal(s) * Pow(2, 5 - |s|)]
    else [BitsVal(s[..5])] + Groups(s[5..])
  }

  /** The CIDv1 string of a multihash: 'b', then the base32 digits of the header and the multihash. */
  function CidV1(multihash: seq<Byte>): string
  {
    var s := Bits(Header + multihash);
    GroupsAreDigits(s);
    "b" + Spell(Alphabet, Groups(s))
  }

  /**
   * The encoder. `buffer` holds only the `bits` bits still waiting to be written: the source's
   * buffer also keeps the bits already written above them, which the mask never reads again.
   */
  method MultihashToCidV1(byteArray: seq<Byte>) returns (cid: string)
    ensures cid == CidV1(byteArray)
  {
    var bytes := Header + byteArray;
    var out, digits, buffer, bits := EmitBytes(bytes);
    ghost var last := digits;
    if bits > 0 {
      LastGroup(buffer, bits);
      var digit: nat := ShiftLeft(buffer, 5 - bits) % 32;
      SpellSnoc(digits, digit);
      out := out + [Alphabet[digit]];
      digits := digits + [digit];
    }
    FinalGroups(bytes, last, buffer, bits);
    assert Groups(Bits(bytes)) == digits;
    cid := "b" + out;
  }

  /** The outer loop: take in each byte, then write every whole digit it completes. */
  method EmitBytes(bytes: seq<Byte>) returns (out: string, ghost digits: seq<nat>, buffer: nat, bits: nat)
    ensures bits <= 5 && Waiting(bytes, |bytes|, digits, buffer, bits) && out == Spell(Alphabet, digits)
  {
    out, digits, buffer, bits := "", [], 0, 0;
    for i := 0 to |bytes|
      invariant bits <= 5 && Waiting(bytes, i, digits, buffer, bits) && out == Spell(Alphabet, digits)
    {
      AbsorbStep(bytes, i, digits, buffer, bits);
      buffer := buffer * 256 + bytes[i];
      bits := bits + 8;
      out, digits, buffer, bits := EmitDigits(bytes, i + 1, out, digits, buffer, bits);
    }
  }

  /** The inner loop: write a digit while more than five bits are waiting. */
  method EmitDigits(bytes: seq<Byte>, n: nat, out: string, ghost digits: seq<nat>, buffer: nat, bits: nat)
    returns (out': string, ghost digits': seq<nat>, buffer': nat, bits': nat)
    requires Waiting(bytes, n, digits, buffer, bits) && out == Spell(Alphabet, digits)
    ensures bits' <= 5 && (bits <= 5 ==> bits' == bits)
    ensures Waiting(bytes, n, digits', buffer', bits') && out' == Spell(Alphabet, digits')
  {
    out', digits', buffer', bits' := out, digits, buffer, bits;
    while bits' > 5
      invariant Waiting(bytes, n, digits', buffer', bits') && out' == Spell(Alphabet, digits')
      invariant bits <= 5 ==> bits' == bits
    {
      bits' := bits' - 5;
      var hi, lo := ShiftRight(buffer', bits'), LowBits(buffer', bits');
      EmitStep(bytes, n, digits', buffer', bits', hi, lo);
      var digit: nat := hi % 32;
      SpellSnoc(digits', digit);
      out' := out' + [Alphabet[digit]];
      digits' := digits' + [digit];
      buffer' := lo;
    }
  }

  /**
   * After `n` bytes: the digits written so far and the waiting bits together are exactly the
   * bits of those bytes, and the waiting bits are all `buffer` holds.
   */
  ghost predicate Waiting(bytes: seq<Byte>, n: nat, d: seq<nat>, buffer: nat, bits: nat)
  {
    && n <= |bytes| && IsDigits(d) && buffer < Pow(2, bits)
    && Bits(bytes[..n]) == DigitBits(d) + NatBits(buffer, bits)
  }

  lemma TakeSnoc<T>(s: seq<T>, i: nat)
    requires i < |s|
    ensures s[..i + 1] == s[..i] + [s[i]]
  {
  }

  lemma SpellSnoc(d: seq<nat>, x: nat)
    requires IsDigits(d) && x < 32
    ensures IsDigits(d + [x]) && Spell(Alphabet, d + [x]) == Spell(Alphabet, d) + [Alphabet[x]]
  {
  }

  /** `x >> k` on a non-negative number. */
  function ShiftRight(x: nat, k: nat): nat
  {
    x / Pow(2, k)
  }

  /** `x << k` without a width limit. */
  function ShiftLeft(x: nat, k: nat): nat
  {
    x * Pow(2, k)
  }

  /** The low `k` bits of `x`: what is left waiting once the bits above them are written. */
  function LowBits(x: nat, k: nat): nat
  {
    x % Pow(2, k)
  }

  /** Shifting byte `i` in below the waiting bits. */
  lemma AbsorbStep(bytes: seq<Byte>, i: nat, d: seq<nat>, buffer: nat, bits: nat)
    requires i < |bytes| && Waiting(bytes, i, d, buffer, bits)
    ensures Waiting(bytes, i + 1, d, buffer * 256 + bytes[i], bits + 8)
  {
    var x := bytes[i];
    TakeSnoc(bytes, i);
    BitsSnoc(bytes[..i], x);
    Pow2Byte();
    PowAdd(2, bits, 8);
    ShiftBelow(buffer, x, Pow(2, bits), 256);
    NatBitsSplit(buffer, x, bits, 8);
    Assoc(DigitBits(d), NatBits(buffer, bits), NatBits(x, 8));
  }

  lemma BitsSnoc(prefix: seq<Byte>, x: Byte)
    ensures Bits(prefix + [x]) == Bits(prefix) + NatBits(x, 8)
  {
    assert (prefix + [x])[..|prefix|] == prefix;
  }

  lemma Assoc<T>(a: seq<T>, b: seq<T>, c: seq<T>)
    ensures (a + b) + c == a + (b + c)
  {
  }

  lemma Pow2Byte()
    ensures Pow(2, 8) == 256
  {
  }

  /** `hi * k + lo` for a digit `lo` below `k` stays below `p * k` while `hi < p`. */
  lemma ShiftBelow(hi: nat, lo: nat, p: nat, k: nat)
    requires hi < p && lo < k
    ensures hi * k + lo < p * k
  {
    assert (hi + 1) * k <= p * k;
  }

  /** Taking the top five of `bits + 5` waiting bits off as a digit. */
  lemma EmitStep(bytes: seq<Byte>, n: nat, d: seq<nat>, buffer: nat, bits: nat, hi: nat, lo: nat)
    requires Waiting(bytes, n, d, buffer, bits + 5)
    requires hi == ShiftRight(buffer, bits) && lo == LowBits(buffer, bits)
    ensures hi < 32 && Waiting(bytes, n, d + [hi % 32], lo, bits)
  {
    var p := Pow(2, bits);
    PowAdd(2, bits, 5);
    Pow2Bound5();
    DivBelow(buffer, p, 32);
    ModSmall(hi, 32);
    DigitBitsSnoc(d, hi);
    DivMod(buffer, p);
    NatBitsSplit(hi, lo, 5, bits);
    Assoc(DigitBits(d), NatBits(hi, 5), NatBits(lo, bits));
  }

  lemma DigitBitsSnoc(d: seq<nat>, x: nat)
    ensures DigitBits(d + [x]) == DigitBits(d) + NatBits(x, 5)
  {
    assert (d + [x])[..|d|] == d;
  }

  lemma DivMod(x: nat, p: nat)
    requires p > 0
    ensures (x / p) * p + x % p == x && x % p < p
  {
  }

  /** `x < p * k` leaves a quotient by `p` below `k`. */
  lemma DivBelow(x: nat, p: nat, k: nat)
    requires p > 0 && x < p * k
    ensures x / p < k
  {
    var q := x / p;
    DivMod(x, p);
    LeMul(k, q, p);
  }

  lemma LeMul(a: nat, b: nat, p: nat)
    ensures a <= b ==> a * p <= b * p
  {
  }

  /** The waiting bits padded with zeros to five: the source's `buffer << 5 - bits`, masked. */
  lemma LastGroup(buffer: nat, bits: nat)
    requires 0 < bits <= 5 && buffer < Pow(2, bits)
    ensures ShiftLeft(buffer, 5 - bits) < 32
  {
    PowAdd(2, bits, 5 - bits);
    assert Pow(2, 5) == 32;
    MulBelow(buffer, Pow(2, bits), Pow(2, 5 - bits));
  }

  lemma MulBelow(x: nat, p: nat, q: nat)
    requires x < p && q > 0
    ensures x * q < p * q
  {
  }

  /** After the last byte: the written digits, then the padded waiting bits, are the groups of all the bits. */
  lemma FinalGroups(bytes: seq<Byte>, d: seq<nat>, buffer: nat, bits: nat)
    requires Waiting(bytes, |bytes|, d, buffer, bits) && bits <= 5
    ensures Groups(Bits(bytes)) == d + (if bits > 0 then [ShiftLeft(buffer, 5 - bits) % 32] else [])
  {
    assert bytes[..|bytes|] == bytes;
    GroupsAfterDigits(d, NatBits(buffer, bits));
    WaitingGroup(buffer, bits);
  }

  /** At most five waiting bits make no group, or one padded with zero bits. */
  lemma WaitingGroup(buffer: nat, bits: nat)
    requires bits <= 5 && buffer < Pow(2, bits)
    ensures Groups(NatBits(buffer, bits)) == if bits > 0 then [ShiftLeft(buffer, 5 - bits) % 32] else []
  {
    var s := NatBits(buffer, bits);
    if bits > 0 {
      var g := ShiftLeft(buffer, 5 - bits);
      LastGroup(buffer, bits);
      ModSmall(g, 32);
      BitsValNatBits(buffer, bits);
      assert Groups(s) == [BitsVal(s) * Pow(2, 5 - bits)];
    } else {
      assert s == [];
    }
  }

  lemma ModSmall(x: nat, m: nat)
    requires x < m
    ensures x % m == x
  {
  }

  /** Whole digits in front group back into themselves. */
  lemma {:induction false} GroupsAfterDigits(d: seq<nat>, t: seq<bool>)
    requires IsDigits(d)
    ensures Groups(DigitBits(d) + t) == d + Groups(t)
  {
    if d != [] {
      var rest := d[1..];
      var head := NatBits(d[0], 5);
      assert d == [d[0]] + rest;
      assert IsDigits(rest) by {
        forall i | 0 <= i < |rest| ensures rest[i] < 32 {
          assert rest[i] == d[i + 1];
        }
      }
      DigitBitsCons(d[0], rest);
      Assoc(head, DigitBits(rest), t);
      GroupsCons(head, DigitBits(rest) + t);
      Pow2Bound5();
      BitsValNatBits(d[0], 5);
      GroupsAfterDigits(rest, t);
      Assoc([d[0]], rest, Groups(t));
    } else {
      assert DigitBits(d) + t == t && d + Groups(t) == Groups(t);
    }
  }

  lemma DigitBitsCons(x: nat, d: seq<nat>)
    ensures DigitBits([x] + d) == NatBits(x, 5) + DigitBits(d)
  {
    DigitBitsAppend([x], d);
    assert DigitBits([x]) == DigitBits([]) + NatBits(x, 5);
  }

  /** Five bits in front make one group of their own. */
  lemma GroupsCons(head: seq<bool>, rest: seq<bool>)
    requires |head| == 5
    ensures Groups(head + rest) == [BitsVal(head)] + Groups(rest)
  {
    if rest == [] {
      assert head + rest == head;
      Pow2Bound5();
    } else {
      assert (head + rest)[..5] == head && (head + rest)[5..] == rest;
    }
  }

  lemma Pow2Bound5()
    ensures Pow(2, 5) == 32 && Pow(2, 0) == 1
  {
  }

  lemma {:induction false} DigitBitsAppend(a: seq<nat>, b: seq<nat>)
    ensures DigitBits(a + b) == DigitBits(a) + DigitBits(b)
  {
    if b == [] {
      assert a + b == a;
    } else {
      var init, x := b[..|b| - 1], b[|b| - 1];
      assert (a + b)[..|a + b| - 1] == a + init;
      assert DigitBits(a + b) == DigitBits(a + init) + NatBits(x, 5);
      DigitBitsAppend(a, init);
      Assoc(DigitBits(a), DigitBits(init), NatBits(x, 5));
    }
  }

  /**
   * Splitting a number at bit `k`: its `w + k` bits are the `w` bits of the high part followed
   * by the `k` bits of the low part.
   */
  lemma {:induction false} NatBitsSplit(hi: nat, lo: nat, w: nat, k: nat)
    requires lo < Pow(2, k)
    ensures NatBits(hi * Pow(2, k) + lo, w + k) == NatBits(hi, w) + NatBits(lo, k)
  {
    if k > 0 {
      var q := hi * Pow(2, k - 1);
      assert hi * Pow(2, k) == 2 * q;
      var v := 2 * q + lo;
      DivModUnique(v, q + lo / 2, lo % 2, 2);
      NatBitsSplit(hi, lo / 2, w, k - 1);
    }
  }

  lemma {:induction false} BitsValNatBits(v: nat, w: nat)
    requires v < Pow(2, w)
    ensures BitsVal(NatBits(v, w)) == v
  {
    if w > 0 {
      BitsValNatBits(v / 2, w - 1);
      var r := NatBits(v, w);
      assert r[..w - 1] == NatBits(v / 2, w - 1);
    }
  }

  lemma {:induction false} NatBitsBitsVal(s: seq<bool>)
    ensures NatBits(BitsVal(s), |s|) == s
  {
    if s != [] {
      var init := s[..|s| - 1];
      var v := BitsVal(s);
      DivModUnique(v, BitsVal(init), if s[|s| - 1] then 1 else 0, 2);
      NatBitsBitsVal(init);
      assert s == init + [s[|s| - 1]];
    }
  }

  lemma {:induction false} BitsValBound(s: seq<bool>)
    ensures BitsVal(s) < Pow(2, |s|)
  {
    if s != [] {
      BitsValBound(s[..|s| - 1]);
    }
  }

  /** Every group is a base32 digit. */
  lemma {:induction false} GroupsAreDigits(s: seq<bool>)
    ensures IsDigits(Groups(s))
    decreases |s|
  {
    if s != [] {
      if |s| <= 5 {
        BitsValBound(s);
        LastGroup(BitsVal(s), |s|);
      } else {
        BitsValBound(s[..5]);
        Pow2Bound5();
        GroupsAreDigits(s[5..]);
      }
    }
  }

  /** The digit a base32 character stands for: its position in `Alphabet`, if it is in it. */
  function CharValue(c: char): (r: Option<nat>)
    ensures r.Some? ==> r.value < 32
  {
    if 'a' <= c <= 'z' then Some(c as int - 'a' as int)
    else if '2' <= c <= '7' then Some(c as int - '2' as int + 26)
    else None
  }

  /** Every character of the alphabet reads back as its own position, so no two coincide. */
  lemma AlphabetPositions()
    ensures |Alphabet| == 32
    ensures Positions(Alphabet, CharValue)
  {
    forall i | 0 <= i < 32 ensures CharValue(Alphabet[i]) == Some(i) {
      if i < 26 {
        assert Alphabet[i] == Run('a', 26)[i];
      } else {
        assert Alphabet[i] == Run('2', 6)[i - 26];
      }
    }
  }

  /** Bytes from bits, eight at a time, most significant first. */
  function FromBits(s: seq<bool>): (r: seq<Byte>)
    requires |s| % 8 == 0
    ensures |r| == |s| / 8
  {
    if s == [] then []
    else
      var last := s[|s| - 8..];
      BitsValBound(last);
      Pow2Byte();
      FromBits(s[..|s| - 8]) + [BitsVal(last)]
  }

  /** Reading the bits of a byte string eight at a time gives the bytes again. */
  lemma {:induction false} FromBitsBits(bytes: seq<Byte>)
    ensures FromBits(Bits(bytes)) == bytes
  {
    if bytes != [] {
      var init, x := bytes[..|bytes| - 1], bytes[|bytes| - 1];
      var s := Bits(bytes);
      assert s[..|s| - 8] == Bits(init) && s[|s| - 8..] == NatBits(x, 8);
      Pow2Byte();
      BitsValNatBits(x, 8);
      FromBitsBits(init);
      assert bytes == init + [x];
    }
  }

  /**
   * Decoding a CIDv1 string: the multibase prefix 'b', base32 digits, whole bytes out of their
   * bits (the padding bits are dropped), and the header 0x01 0x70 in front of the multihash.
   */
  function DecodeCidV1(cid: string): (r: Option<seq<Byte>>)
  {
    if cid == [] || cid[0] != 'b' then None
    else
      var d := ReadDigits(CharValue, cid[1..]);
      if d.None? then None
      else
        var s := DigitBits(d.value);
        WholeOctets(|s|);
        var bytes := FromBits(s[..8 * (|s| / 8)]);
        if |bytes| >= 2 && bytes[..2] == Header then Some(bytes[2..]) else None
  }

  lemma WholeOctets(k: nat)
    ensures 8 * (k / 8) <= k && (8 * (k / 8)) % 8 == 0
  {
  }

  /** The characters after the prefix read back as the five-bit groups of the header and multihash. */
  lemma CidV1Digits(multihash: seq<Byte>)
    ensures ReadDigits(CharValue, CidV1(multihash)[1..]) == Some(Groups(Bits(Header + multihash)))
  {
    var d := Groups(Bits(Header + multihash));
    GroupsAreDigits(Bits(Header + multihash));
    assert CidV1(multihash)[1..] == Spell(Alphabet, d);
    AlphabetPositions();
    ReadSpell(Alphabet, CharValue, d);
  }

  /** Decoding the CIDv1 of a multihash gives the multihash back. */
  lemma CidV1RoundTrip(multihash: seq<Byte>)
    ensures DecodeCidV1(CidV1(multihash)) == Some(multihash)
  {
    var bytes := Header + multihash;
    var s := Bits(bytes);
    var d := Groups(s);
    GroupsAreDigits(s);
    var cid := CidV1(multihash);
    CidV1Digits(multihash);
    DigitBitsGroups(s);
    var t := DigitBits(d);
    WholeBytes(|bytes|, |d|);
    assert t[..8 * (|t| / 8)] == s;
    FromBitsBits(bytes);
    assert bytes[..2] == Header && bytes[2..] == multihash;
  }

  /** The groups' bits start with the bits grouped; only zero padding follows. */
  lemma {:induction false} DigitBitsGroups(s: seq<bool>)
    ensures |DigitBits(Groups(s))| >= |s| && DigitBits(Groups(s))[..|s|] == s
    decreases |s|
  {
    if s == [] {
    } else if |s| <= 5 {
      PaddedGroup(s);
    } else {
      var head, rest := s[..5], s[5..];
      var g := BitsVal(head);
      assert Groups(s) == [g] + Groups(rest);
      DigitBitsGroups(rest);
      DigitBitsCons(g, Groups(rest));
      NatBitsBitsVal(head);
      var t := DigitBits(Groups(rest));
      assert s == head + rest;
      assert (head + t)[..|s|] == head + t[..|rest|];
    }
  }

  /** A last group of at most five bits: its digit's bits are those bits, then zeros. */
  lemma PaddedGroup(s: seq<bool>)
    requires 0 < |s| <= 5
    ensures |DigitBits(Groups(s))| >= |s| && DigitBits(Groups(s))[..|s|] == s
  {
    var v, k := BitsVal(s), 5 - |s|;
    var g := v * Pow(2, k);
    assert Groups(s) == [g];
    assert DigitBits([g]) == DigitBits([]) + NatBits(g, 5);
    NatBitsSplit(v, 0, |s|, k);
    NatBitsBitsVal(s);
    assert NatBits(g, 5) == s + NatBits(0, k);
  }

  /** `n` bytes give `d` digits of five bits, of which exactly the `8 * n` bits of the bytes are whole bytes. */
  lemma WholeBytes(n: nat, d: nat)
    requires d == (8 * n + 4) / 5
    ensures 8 * (5 * d / 8) == 8 * n
  {
  }

  /** The CIDv1 of `n` bytes: 'b' and one digit per five bits of the header and the bytes, the last one padded. */
  lemma CidV1Length(multihash: seq<Byte>)
    ensures |CidV1(multihash)| == 1 + (8 * |multihash| + 20) / 5
  {
  }

  /** A sha2-256 multihash (0x12, 0x20, then 32 digest bytes) always gives 59 characters starting with "bafybei". */
  lemma CidV1Multihash(digest: seq<Byte>)
    requires |digest| == 32
    ensures |CidV1([0x12, 0x20] + digest)| == 59
    ensures CidV1([0x12, 0x20] + digest)[..7] == "bafybei"
  {
    var multihash := [0x12, 0x20] + digest;
    var s := Bits(Header + multihash);
    CidV1Length(multihash);
    LeadingDigits(digest);
    GroupsAreDigits(s);
    var d := Groups(s);
    assert CidV1(multihash)[..7] == "b" + Spell(Alphabet, d)[..6];
    LeadingSpelling();
    assert Spell(Alphabet, d)[..6] == Spell(Alphabet, [0, 5, 24, 1, 4, 8]);
  }

  /** The header and the sha2-256 code and length make the first six digits. */
  lemma LeadingDigits(digest: seq<Byte>)
    ensures Groups(Bits(Header + ([0x12, 0x20] + digest)))[..6] == [0, 5, 24, 1, 4, 8]
  {
    var fixed: seq<Byte> := [0x01, 0x70, 0x12, 0x20];
    var lead: seq<nat> := [0, 5, 24, 1, 4, 8];
    assert Header + ([0x12, 0x20] + digest) == fixed + digest;
    BitsAppend(fixed, digest);
    FixedBits();
    var t := NatBits(0, 2) + Bits(digest);
    Assoc(DigitBits(lead), NatBits(0, 2), Bits(digest));
    GroupsAfterDigits(lead, t);
  }

  lemma LeadingSpelling()
    ensures Spell(Alphabet, [0, 5, 24, 1, 4, 8]) == "afybei"
  {
    assert Alphabet[0] == 'a' && Alphabet[5] == 'f' && Alphabet[24] == 'y';
    assert Alphabet[1] == 'b' && Alphabet[4] == 'e' && Alphabet[8] == 'i';
  }

  /**
   * The bits of 0x01 0x70 0x12 0x20 are the digits 0, 5, 24, 1, 4, 8 and two zero bits:
   * both are the 32 bits of 0x01701220.
   */
  lemma FixedBits()
    ensures Bits([0x01, 0x70, 0x12, 0x20]) == DigitBits([0, 5, 24, 1, 4, 8]) + NatBits(0, 2)
  {
    var fixed: seq<Byte> := [0x01, 0x70, 0x12, 0x20];
    var lead: seq<nat> := [0, 5, 24, 1, 4, 8];
    BitsBigEndian(fixed);
    DigitBitsValue(lead);
    FixedValues();
    assert Pow(2, 2) == 4;
    Join(6030472, 0, 24121888, 30, 2);
  }

  lemma FixedValues()
    ensures BigEndian([0x01, 0x70, 0x12, 0x20]) == 24121888
    ensures DigitsValue([0, 5, 24, 1, 4, 8]) == 6030472
  {
    assert [0x01, 0x70, 0x12, 0x20][..3] == [0x01, 0x70, 0x12];
    assert [0x01, 0x70, 0x12][..2] == [0x01, 0x70];
    assert [0x01, 0x70][..1] == [0x01];
    assert [0x01][..0] == [];
    assert [0, 5, 24, 1, 4, 8][..5] == [0, 5, 24, 1, 4];
    assert [0, 5, 24, 1, 4][..4] == [0, 5, 24, 1];
    assert [0, 5, 24, 1][..3] == [0, 5, 24];
    assert [0, 5, 24][..2] == [0, 5];
    assert [0, 5][..1] == [0];
    assert [0][..0] == [];
  }

  /** Base32 digits read as one number, most significant first. */
  function DigitsValue(d: seq<nat>): nat
  {
    if d == [] then 0 else DigitsValue(d[..|d| - 1]) * 32 + d[|d| - 1]
  }

  /** The bits of a byte string are those of its big-endian value. */
  lemma {:induction false} BitsBigEndian(bytes: seq<Byte>)
    ensures Bits(bytes) == NatBits(BigEndian(bytes), 8 * |bytes|)
  {
    if bytes != [] {
      var init := bytes[..|bytes| - 1];
      BitsBigEndian(init);
      JoinByte(BigEndian(init), bytes[|bytes| - 1], BigEndian(bytes), 8 * |init|);
    }
  }

  /** The bits of base32 digits are those of the number they spell. */
  lemma {:induction false} DigitBitsValue(d: seq<nat>)
    requires IsDigits(d)
    ensures DigitBits(d) == NatBits(DigitsValue(d), 5 * |d|)
  {
    if d != [] {
      var init := d[..|d| - 1];
      DigitBitsValue(init);
      JoinDigit(DigitsValue(init), d[|d| - 1], DigitsValue(d), 5 * |init|);
    }
  }

  lemma JoinByte(hi: nat, lo: Byte, v: nat, w: nat)
    requires v == hi * 256 + lo
    ensures NatBits(v, w + 8) == NatBits(hi, w) + NatBits(lo, 8)
  {
    Pow2Byte();
    NatBitsSplit(hi, lo, w, 8);
  }

  lemma JoinDigit(hi: nat, lo: nat, v: nat, w: nat)
    requires lo < 32 && v == hi * 32 + lo
    ensures NatBits(v, w + 5) == NatBits(hi, w) + NatBits(lo, 5)
  {
    Pow2Bound5();
    NatBitsSplit(hi, lo, w, 5);
  }

  lemma Join(hi: nat, lo: nat, v: nat, w: nat, k: nat)
    requires lo < Pow(2, k) && v == hi * Pow(2, k) + lo
    ensures NatBits(v, w + k) == NatBits(hi, w) + NatBits(lo, k)
  {
    NatBitsSplit(hi, lo, w, k);
  }

  lemma {:induction false} BitsAppend(a: seq<Byte>, b: seq<Byte>)
    ensures Bits(a + b) == Bits(a) + Bits(b)
  {
    if b == [] {
      assert a + b == a;
    } else {
      var init, x := b[..|b| - 1], b[|b| - 1];
      assert (a + b)[..|a + b| - 1] == a + init;
      assert Bits(a + b) == Bits(a + init) + NatBits(x, 8);
      BitsAppend(a, init);
      Assoc(Bits(a), Bits(init), NatBits(x, 8));
    }
  }
}
