/**
 * CIDv0: base58btc encoding of a multihash by in-place long division over a 46-digit buffer
 * (index.js `solcMultihashToCIDv0`). Each input byte, most significant first, is multiplied
 * into the buffer with the carry running from the last digit towards the first.
 */
module Base58 {
  import opened Wrappers
  import opened Bytes
  import opened Alphabets

  /** Digits in the output buffer; a carry still left after the first digit is dropped. */
  const Size: nat := 46

  /** 58^46, the first value the buffer cannot hold (written out; `ModulusIsPow` checks it). */
  const Modulus: nat :=
    1311256650531604040683918106085433325685010428206934077445436201506164705899577344

  /** The Bitcoin base58 alphabet (no 0, O, I or l), as six runs of consecutive characters. */
  const Alphabet: string :=
    Run('1', 9) + Run('A', 8) + Run('J', 5) + Run('P', 11) + Run('a', 11) + Run('m', 14)

  predicate IsDigits(d: seq<nat>)
  {
    forall i :: 0 <= i < |d| ==> d[i] < 58
  }

  /** No leading zero digit: the form the encoder's digits take while nothing was dropped. */
  predicate NoLeadingZero(d: seq<nat>)
  {
    d == [] || d[0] != 0
  }

  /** Digits read in base 58, most significant first. */
  function Val58(d: seq<nat>): nat
  {
    if d == [] then 0 else Val58(d[..|d| - 1]) * 58 + d[|d| - 1]
  }

  /** The base-58 digits of `v` without leading zeros (none at all for 0). */
  function Canonical(v: nat): (d: seq<nat>)
    ensures IsDigits(d) && Val58(d) == v
    ensures d == [] || d[0] != 0
    decreases v
  {
    if v == 0 then []
    else
      var init := Canonical(v / 58);
      assert (init + [v % 58])[..|init|] == init;
      assert init == [] ==> v % 58 != 0;
      init + [v % 58]
  }

  /** Exactly `w` base-58 digits of `v`, leading zeros included. */
  function Fixed(v: nat, w: nat): (d: seq<nat>)
    requires v < Pow(58, w)
    ensures |d| == w && IsDigits(d) && Val58(d) == v
  {
    if w == 0 then []
    else
      var init := Fixed(v / 58, w - 1);
      assert (init + [v % 58])[..|init|] == init;
      init + [v % 58]
  }

  /**
   * The digits the buffer ends with: the canonical digits while the value fits in 46 digits,
   * otherwise all 46 digits of the value modulo 58^46.
   */
  function Digits(v: nat): (d: seq<nat>)
    ensures IsDigits(d) && |d| <= Size
  {
    ModulusIsPow();
    if v < Modulus then CanonicalLength(v, Size); Canonical(v)
    else Fixed(v % Modulus, Size)
  }

  /** The CIDv0 string of a byte sequence, as the encoder leaves it. */
  function CidV0(bytes: seq<Byte>): string
  {
    Spell(Alphabet, Digits(BigEndian(bytes)))
  }

  /**
   * What the buffer holds after some bytes: 46 digits whose value, plus the multiples of
   * 58^46 carried off the front (`dropped`), is the value of those bytes; zeros before the
   * last `length` digits; and, while nothing was dropped, those digits are the canonical ones.
   */
  ghost predicate Buffer(a: seq<nat>, length: nat, dropped: nat, value: nat)
  {
    && |a| == Size && IsDigits(a) && length <= Size
    && (forall j :: 0 <= j < Size - length ==> a[j] == 0)
    && value == Val58(a) + dropped * Modulus
    && (dropped == 0 ==> NoLeadingZero(a[Size - length..]))
    && (dropped != 0 ==> length == Size)
  }

  /** The encoder: one pass of the carry loop per input byte over the 46-digit buffer. */
  method MultihashToCidV0(byteArray: seq<Byte>) returns (cid: string)
    ensures cid == CidV0(byteArray)
  {
    var output := new nat[Size](_ => 0);
    var length: nat := 0;
    var pointer := 0;
    ghost var dropped: nat := 0;
    Val58Zeros(output[..], Size);
    assert output[..][Size..] == [];
    while pointer < |byteArray|
      invariant 0 <= pointer <= |byteArray|
      invariant Buffer(output[..], length, dropped, BigEndian(byteArray[..pointer]))
    {
      ghost var value := BigEndian(byteArray[..pointer]);
      var b := byteArray[pointer];
      assert byteArray[..pointer + 1][..pointer] == byteArray[..pointer];
      assert BigEndian(byteArray[..pointer + 1]) == value * 256 + b;
      length, dropped := AbsorbByte(output, length, b, dropped, value);
      pointer := pointer + 1;
    }
    assert byteArray[..pointer] == byteArray;
    FinalCid(output[..], length, dropped, byteArray);
    cid := Spell(Alphabet, output[Size - length..]);
  }

  /** Spelling the written digits of the final buffer gives the CIDv0 of the input. */
  lemma FinalCid(a: seq<nat>, length: nat, dropped: nat, bytes: seq<Byte>)
    requires Buffer(a, length, dropped, BigEndian(bytes))
    ensures length <= Size == |a| && IsDigits(a[Size - length..])
    ensures Spell(Alphabet, a[Size - length..]) == CidV0(bytes)
  {
    FinalDigits(a, length, dropped, BigEndian(bytes));
  }

  /**
   * One input byte: the carry loop multiplies the buffer by 256 and adds `b`; the new length
   * is the number of digits it walked, and a carry left past the first digit is dropped.
   */
  method AbsorbByte(output: array<nat>, length: nat, b: Byte, ghost dropped: nat, ghost value: nat)
    returns (length': nat, ghost dropped': nat)
    requires output.Length == Size && Buffer(output[..], length, dropped, value)
    modifies output
    ensures Buffer(output[..], length', dropped', value * 256 + b)
  {
    ghost var before := output[..];
    var i, carry := CarryByte(output, length, b);
    AfterCarry(before, output[..], length, i, carry, b, dropped);
    dropped' := 256 * dropped + carry;
    Regroup(value * 256 + b, value, Val58(before), Val58(output[..]), dropped, carry, dropped', b, Modulus);
    length' := i;
  }

  /** The carry loop itself, from the last digit forward. */
  method CarryByte(output: array<nat>, length: nat, b: Byte) returns (i: nat, carry: nat)
    requires output.Length == Size && IsDigits(output[..]) && length <= Size
    modifies output
    ensures i <= Size && IsDigits(output[..])
    ensures forall j :: 0 <= j < Size - i ==> output[j] == old(output[j])
    ensures Val58(output[Size - i..]) + Shift58(carry, i) == Val58(old(output[..])[Size - i..]) * 256 + b
    ensures i > length ==> carry != 0 || output[Size - i] != 0
    ensures i == Size || (carry == 0 && i >= length)
  {
    ghost var before := output[..];
    ghost var cur := before;
    carry := b;
    i := 0;
    var it1 := Size - 1;
    while (carry != 0 || i < length) && it1 != -1
      invariant 0 <= i <= Size && it1 == Size - 1 - i
      invariant cur == output[..]
      invariant Carried(before, cur, i, carry, length, b)
    {
      ghost var prevCarry := carry;
      carry := carry + 256 * output[it1];
      output[it1] := carry % 58;
      carry := carry / 58;
      CarryStep(cur, before, i, prevCarry, b, output[..], carry);
      cur := output[..];
      it1, i := it1 - 1, i + 1;
    }
  }

  ghost predicate Carried(before: seq<nat>, a: seq<nat>, i: nat, carry: nat, length: nat, b: nat)
  {
    && |before| == |a| == Size && i <= Size
    && IsDigits(a)
    && (forall j :: 0 <= j < Size - i ==> a[j] == before[j])
    && Val58(a[Size - i..]) + Shift58(carry, i) == Val58(before[Size - i..]) * 256 + b
    && (i > length ==> carry != 0 || a[Size - i] != 0)
  }

  /** `c` moved up by `i` base-58 digits. */
  function Shift58(c: nat, i: nat): nat
  {
    if i == 0 then c else Shift58(c, i - 1) * 58
  }

  lemma {:induction false} Shift58IsProduct(c: nat, i: nat)
    ensures Shift58(c, i) == c * Pow(58, i)
  {
    if i > 0 {
      Shift58IsProduct(c, i - 1);
      assert c * Pow(58, i) == c * Pow(58, i - 1) * 58;
    }
  }

  /** One digit of the carry loop keeps "written digits + carry = 256 * old digits + byte". */
  lemma CarryStep(a: seq<nat>, before: seq<nat>, i: nat, carry: nat, b: Byte, a': seq<nat>, carry': nat)
    requires |a| == |before| == Size && i < Size && IsDigits(a)
    requires forall j :: 0 <= j < Size - i ==> a[j] == before[j]
    requires Val58(a[Size - i..]) + Shift58(carry, i) == Val58(before[Size - i..]) * 256 + b
    requires a' == a[Size - 1 - i := (carry + 256 * a[Size - 1 - i]) % 58]
    requires carry' == (carry + 256 * a[Size - 1 - i]) / 58
    ensures IsDigits(a')
    ensures forall j :: 0 <= j < Size - (i + 1) ==> a'[j] == before[j]
    ensures Val58(a'[Size - (i + 1)..]) + Shift58(carry', i + 1) == Val58(before[Size - (i + 1)..]) * 256 + b
    ensures i + 1 > 0 && carry' == 0 && a'[Size - (i + 1)] == 0 ==> carry + 256 * a[Size - 1 - i] == 0
  {
    var p := Size - 1 - i;
    var d := a[p];
    var c := carry + 256 * d;
    assert a'[p..] == [c % 58] + a[p + 1..];
    assert before[p..] == [d] + before[p + 1..];
    assert a[p + 1..] == a[Size - i..] && before[p + 1..] == before[Size - i..];
    Val58Concat([c % 58], a[p + 1..]);
    Val58Concat([d], before[p + 1..]);
    assert Val58([c % 58]) == c % 58 && Val58([d]) == d;
    Shift58Split(c, c % 58, 58, c / 58, i);
    Shift58Split(c, carry, 256, d, i);
  }

  /** Moving up `x + k * y` moves up both parts. */
  lemma Shift58Split(c: nat, x: nat, k: nat, y: nat, i: nat)
    requires c == x + k * y
    ensures Shift58(c, i) == Shift58(x, i) + k * Shift58(y, i)
  {
    Shift58Add(x, k * y, i);
    Shift58Scale(k, y, i);
  }

  /** Moving digits up is additive. */
  lemma {:induction false} Shift58Add(x: nat, y: nat, i: nat)
    ensures Shift58(x + y, i) == Shift58(x, i) + Shift58(y, i)
  {
    if i > 0 {
      Shift58Add(x, y, i - 1);
    }
  }

  /** Moving digits up commutes with scaling. */
  lemma {:induction false} Shift58Scale(k: nat, x: nat, i: nat)
    ensures Shift58(k * x, i) == k * Shift58(x, i)
  {
    if i > 0 {
      Shift58Scale(k, x, i - 1);
      assert k * Shift58(x, i) == k * Shift58(x, i - 1) * 58;
    }
  }

  /** Reading two runs of digits one after the other. */
  lemma {:induction false} Val58Concat(d: seq<nat>, e: seq<nat>)
    ensures Val58(d + e) == Shift58(Val58(d), |e|) + Val58(e)
  {
    if e == [] {
      assert d + e == d;
    } else {
      assert (d + e)[..|d + e| - 1] == d + e[..|e| - 1];
      Val58Concat(d, e[..|e| - 1]);
    }
  }

  lemma ShiftArith(va: nat, vb: nat, carry: nat, dropped: nat, M: nat, b: nat)
    requires va + carry * M == vb * 256 + b
    ensures (vb + dropped * M) * 256 + b == va + (256 * dropped + carry) * M
  {
    assert (vb + dropped * M) * 256 == vb * 256 + (256 * dropped) * M;
    assert (256 * dropped + carry) * M == (256 * dropped) * M + carry * M;
  }

  /** The value absorbed so far, regrouped around the digits the buffer now holds. */
  lemma Regroup(total: nat, value: nat, vb: nat, va: nat, dropped: nat, carry: nat, next: nat, b: nat, M: nat)
    requires total == value * 256 + b && value == vb + dropped * M
    requires (vb + dropped * M) * 256 + b == va + (256 * dropped + carry) * M
    requires next == 256 * dropped + carry
    ensures total == va + next * M
  {
  }

  /**
   * After the carry loop: the buffer, together with what fell off its front, holds the new
   * value; while nothing has fallen off, the written digits are exactly the canonical ones.
   */
  lemma AfterCarry(before: seq<nat>, a: seq<nat>, length: nat, i: nat, carry: nat, b: Byte, dropped: nat)
    requires |before| == |a| == Size && IsDigits(before) && IsDigits(a) && length <= Size && i <= Size
    requires forall j :: 0 <= j < Size - length ==> before[j] == 0
    requires dropped == 0 ==> NoLeadingZero(before[Size - length..])
    requires dropped != 0 ==> length == Size
    requires forall j :: 0 <= j < Size - i ==> a[j] == before[j]
    requires Val58(a[Size - i..]) + Shift58(carry, i) == Val58(before[Size - i..]) * 256 + b
    requires i > length ==> carry != 0 || a[Size - i] != 0
    requires i == Size || (carry == 0 && i >= length)
    ensures forall j :: 0 <= j < Size - i ==> a[j] == 0
    ensures (Val58(before) + dropped * Modulus) * 256 + b ==
      Val58(a) + (256 * dropped + carry) * Modulus
    ensures 256 * dropped + carry == 0 ==> NoLeadingZero(a[Size - i..])
    ensures 256 * dropped + carry != 0 ==> i == Size
  {
    if i == Size {
      CarriedToFront(before, a, length, i, carry, b, dropped);
    } else {
      StoppedEarly(before, a, length, i, carry, b, dropped);
    }
  }

  /** The carry loop ran through all 46 digits. */
  lemma CarriedToFront(before: seq<nat>, a: seq<nat>, length: nat, i: nat, carry: nat, b: Byte, dropped: nat)
    requires |before| == |a| == Size && IsDigits(before) && IsDigits(a) && length <= Size && i == Size
    requires dropped == 0 ==> NoLeadingZero(before[Size - length..])
    requires Val58(a[Size - i..]) + Shift58(carry, i) == Val58(before[Size - i..]) * 256 + b
    requires i > length ==> carry != 0 || a[Size - i] != 0
    ensures (Val58(before) + dropped * Modulus) * 256 + b ==
      Val58(a) + (256 * dropped + carry) * Modulus
    ensures 256 * dropped + carry == 0 ==> NoLeadingZero(a[Size - i..])
  {
    ModulusIsPow();
    Shift58IsProduct(carry, i);
    assert a[Size - i..] == a && before[Size - i..] == before;
    ShiftArith(Val58(a), Val58(before), carry, dropped, Modulus, b);
    if 256 * dropped + carry == 0 {
      if length == Size {
        assert before[Size - length..] == before;
        FullBufferOverflows(before, a, carry, b);
      }
    }
  }

  /** The carry loop stopped early, with no carry left and at or past the old length. */
  lemma StoppedEarly(before: seq<nat>, a: seq<nat>, length: nat, i: nat, carry: nat, b: Byte, dropped: nat)
    requires |before| == |a| == Size && IsDigits(before) && IsDigits(a) && length <= i < Size
    requires forall j :: 0 <= j < Size - length ==> before[j] == 0
    requires dropped == 0 ==> NoLeadingZero(before[Size - length..])
    requires dropped != 0 ==> length == Size
    requires forall j :: 0 <= j < Size - i ==> a[j] == before[j]
    requires carry == 0
    requires Val58(a[Size - i..]) + Shift58(carry, i) == Val58(before[Size - i..]) * 256 + b
    requires i > length ==> carry != 0 || a[Size - i] != 0
    ensures forall j :: 0 <= j < Size - i ==> a[j] == 0
    ensures (Val58(before) + dropped * Modulus) * 256 + b ==
      Val58(a) + (256 * dropped + carry) * Modulus
    ensures 256 * dropped + carry == 0 ==> NoLeadingZero(a[Size - i..])
    ensures 256 * dropped + carry != 0 ==> i == Size
  {
    assert dropped == 0;
    Shift58IsProduct(carry, i);
    EarlyValue(before, a, i, b);
    if i == length {
      EarlyCanonical(before[Size - i..], a[Size - i..], b);
    }
    ShiftArith(Val58(a), Val58(before), 0, 0, Modulus, b);
  }

  /** Digits the carry loop did not reach are the old leading zeros, which add nothing. */
  lemma EarlyValue(before: seq<nat>, a: seq<nat>, i: nat, b: Byte)
    requires |before| == |a| == Size && i <= Size
    requires forall j :: 0 <= j < Size - i ==> before[j] == 0
    requires forall j :: 0 <= j < Size - i ==> a[j] == before[j]
    requires Val58(a[Size - i..]) == Val58(before[Size - i..]) * 256 + b
    ensures forall j :: 0 <= j < Size - i ==> a[j] == 0
    ensures Val58(a) == Val58(before) * 256 + b
  {
    Val58Zeros(before, Size - i);
    Val58Zeros(a, Size - i);
  }

  /**
   * When the walk stopped at the old length, the digits walked are canonical: a leading 0
   * would mean the old canonical digits times 256 still fit in as many digits.
   */
  lemma EarlyCanonical(lb: seq<nat>, la: seq<nat>, b: Byte)
    requires |lb| == |la| && IsDigits(la)
    requires Val58(la) == Val58(lb) * 256 + b
    requires NoLeadingZero(lb)
    ensures NoLeadingZero(la)
  {
    if la != [] {
      LeadingDigitOverflows(lb, la, b);
    }
  }

  /** 46 canonical digits times 256 no longer fit in 46 digits, so a carry must be left over. */
  lemma FullBufferOverflows(before: seq<nat>, a: seq<nat>, carry: nat, b: Byte)
    requires |before| == |a| == Size && IsDigits(a)
    requires NoLeadingZero(before)
    requires Val58(a) + carry * Modulus == Val58(before) * 256 + b
    ensures carry != 0
  {
    LeadingDigitOverflows(before, a, b);
    CarryNeeded(Val58(a), carry, Modulus, Val58(before) * 256 + b);
  }

  lemma CarryNeeded(x: nat, c: nat, m: nat, y: nat)
    requires x + c * m == y && x != y
    ensures c != 0
  {
  }

  /**
   * Digits without a leading zero, times 256, no longer fit in as many digits with a leading
   * zero.
   */
  lemma LeadingDigitOverflows(low: seq<nat>, a: seq<nat>, b: Byte)
    requires |low| == |a| > 0 && IsDigits(a)
    requires NoLeadingZero(low)
    ensures a[0] == 0 ==> Val58(a) != Val58(low) * 256 + b
    ensures Val58(a) < Val58(low) * 256 + b
  {
    var v := Val58(low);
    LeadingLower(low);
    Val58Bound(a);
    OverflowArith(v, Val58(a), b, |a|);
  }

  lemma OverflowArith(v: nat, x: nat, b: nat, n: nat)
    requires n > 0 && v >= Pow(58, n - 1)
    ensures v * 256 + b >= Pow(58, n)
  {
    assert Pow(58, n) == 58 * Pow(58, n - 1);
  }

  /** The written part of the final buffer is `Digits` of the input's value. */
  lemma FinalDigits(a: seq<nat>, length: nat, dropped: nat, v: nat)
    requires Buffer(a, length, dropped, v)
    ensures Digits(v) == a[Size - length..]
  {
    if dropped == 0 {
      DigitsFit(a, length, dropped, v);
    } else {
      DigitsWrapped(a, length, dropped, v);
    }
  }

  /** Nothing dropped: the value fits in 46 digits and its canonical digits are the last ones. */
  lemma DigitsFit(a: seq<nat>, length: nat, dropped: nat, v: nat)
    requires Buffer(a, length, dropped, v) && dropped == 0
    ensures Digits(v) == a[Size - length..]
  {
    Val58Bound(a);
    ModulusIsPow();
    assert v == Val58(a);
    Val58Zeros(a, Size - length);
    CanonicalUnique(a[Size - length..]);
  }

  /** Something dropped: the value is at least 58^46 and the buffer holds it modulo 58^46. */
  lemma DigitsWrapped(a: seq<nat>, length: nat, dropped: nat, v: nat)
    requires Buffer(a, length, dropped, v) && dropped != 0
    ensures Digits(v) == a[Size - length..]
  {
    Val58Bound(a);
    ModulusIsPow();
    Overflowed(v, Val58(a), dropped, Modulus);
    FixedUnique(a);
    assert a[Size - length..] == a;
  }

  /** A value below `m` plus `d` multiples of `m` reaches `m` exactly when `d` is not 0. */
  lemma Overflowed(v: nat, x: nat, d: nat, m: nat)
    requires m > 0 && x < m && v == x + d * m
    ensures (d == 0 <==> v < m) && v % m == x
  {
    DivModUnique(v, d, x, m);
    if d != 0 {
      MulAtLeast(d, m);
    }
  }

  lemma {:induction false} Val58Append(d: seq<nat>, e: seq<nat>)
    ensures Val58(d + e) == Val58(d) * Pow(58, |e|) + Val58(e)
  {
    if e == [] {
      assert d + e == d;
    } else {
      assert (d + e)[..|d + e| - 1] == d + e[..|e| - 1];
      Val58Append(d, e[..|e| - 1]);
    }
  }

  lemma {:induction false} Val58Bound(d: seq<nat>)
    requires IsDigits(d)
    ensures Val58(d) < Pow(58, |d|)
  {
    if d != [] {
      Val58Bound(d[..|d| - 1]);
    }
  }

  /** Leading zero digits do not change the value. */
  lemma {:induction false} Val58Zeros(d: seq<nat>, k: nat)
    requires k <= |d|
    requires forall j :: 0 <= j < k ==> d[j] == 0
    ensures Val58(d) == Val58(d[k..])
  {
    if k > 0 {
      Val58Zeros(d[1..], k - 1);
      assert d == [0] + d[1..];
      Val58Append([0], d[1..]);
      assert Val58([0]) == 0;
      assert d[1..][k - 1..] == d[k..];
    }
  }

  /** A first digit other than 0 puts the value of n digits at least at 58^(n-1). */
  lemma LeadingLower(d: seq<nat>)
    requires d != [] && d[0] != 0
    ensures Val58(d) >= Pow(58, |d| - 1)
  {
    Val58Append([d[0]], d[1..]);
    assert d == [d[0]] + d[1..];
    assert Val58([d[0]]) == d[0];
    MulAtLeast(d[0], Pow(58, |d| - 1));
  }

  /** Digits without a leading zero are the canonical digits of their value. */
  lemma {:induction false} CanonicalUnique(d: seq<nat>)
    requires IsDigits(d)
    requires d == [] || d[0] != 0
    ensures Canonical(Val58(d)) == d
  {
    if d != [] {
      var init := d[..|d| - 1];
      var v := Val58(d);
      Val58Append([d[0]], d[1..]);
      assert d == [d[0]] + d[1..];
      assert Val58([d[0]]) == d[0];
      assert v > 0;
      assert v / 58 == Val58(init) && v % 58 == d[|d| - 1];
      CanonicalUnique(init);
      assert d == init + [d[|d| - 1]];
    }
  }

  /** Digits of a fixed width, leading zeros included, are the fixed-width digits of their value. */
  lemma {:induction false} FixedUnique(d: seq<nat>)
    requires IsDigits(d)
    ensures Val58(d) < Pow(58, |d|)
    ensures Fixed(Val58(d), |d|) == d
  {
    Val58Bound(d);
    if d != [] {
      var init := d[..|d| - 1];
      var v := Val58(d);
      assert v / 58 == Val58(init) && v % 58 == d[|d| - 1];
      FixedUnique(init);
      assert d == init + [d[|d| - 1]];
    }
  }

  lemma ModulusIsPow()
    ensures Pow(58, Size) == Modulus
  {
    assert Pow(58, 9) == 7427658739644928;
    PowAdd(58, 9, 9);
    assert Pow(58, 18) == 55170114352623680311867516125184;
    PowAdd(58, 18, 18);
    assert Pow(58, 36) == 3043741517681573408154032751732621616256793128331902261559033856;
    PowAdd(58, 36, 9);
    PowAdd(58, 45, 1);
  }

  /** Below 58^w the canonical digits number at most w. */
  lemma CanonicalLength(v: nat, w: nat)
    requires v < Pow(58, w)
    ensures |Canonical(v)| <= w
  {
    if v > 0 {
      LeadingLower(Canonical(v));
      if |Canonical(v)| > w {
        PowMonotone(58, w, |Canonical(v)| - 1);
      }
    }
  }

  /** The digit a base58 character stands for: its position in `Alphabet`, if it is in it. */
  function CharValue(c: char): (r: Option<nat>)
    ensures r.Some? ==> r.value < 58
  {
    if '1' <= c <= '9' then Some(c as int - '1' as int)
    else if 'A' <= c <= 'H' then Some(c as int - 'A' as int + 9)
    else if 'J' <= c <= 'N' then Some(c as int - 'J' as int + 17)
    else if 'P' <= c <= 'Z' then Some(c as int - 'P' as int + 22)
    else if 'a' <= c <= 'k' then Some(c as int - 'a' as int + 33)
    else if 'm' <= c <= 'z' then Some(c as int - 'm' as int + 44)
    else None
  }

  /** Every character of the alphabet reads back as its own position, so no two coincide. */
  lemma AlphabetPositions()
    ensures |Alphabet| == 58
    ensures Positions(Alphabet, CharValue)
  {
    forall i | 0 <= i < 58 ensures CharValue(Alphabet[i]) == Some(i) {
      if i < 9 {
        assert Alphabet[i] == Run('1', 9)[i];
      } else if i < 17 {
        assert Alphabet[i] == Run('A', 8)[i - 9];
      } else if i < 22 {
        assert Alphabet[i] == Run('J', 5)[i - 17];
      } else if i < 33 {
        assert Alphabet[i] == Run('P', 11)[i - 22];
      } else if i < 44 {
        assert Alphabet[i] == Run('a', 11)[i - 33];
      } else {
        assert Alphabet[i] == Run('m', 14)[i - 44];
      }
    }
  }

  /** The six runs spell the alphabet `123456789ABCDEFGHJKLMNPQRSTUVWXYZabcdefghijkmnopqrstuvwxyz`. */
  lemma AlphabetText()
    ensures Alphabet[..9] == "123456789" && Alphabet[9..17] == "ABCDEFGH" && Alphabet[17..22] == "JKLMN"
    ensures Alphabet[22..33] == "PQRSTUVWXYZ" && Alphabet[33..44] == "abcdefghijk"
    ensures Alphabet[44..] == "mnopqrstuvwxyz"
  {
  }

  /** The CIDv0 string reads back as the input's value modulo 58^46. */
  lemma CidV0Value(bytes: seq<Byte>)
    ensures ReadDigits(CharValue, CidV0(bytes)).Some?
    ensures Val58(ReadDigits(CharValue, CidV0(bytes)).value) == BigEndian(bytes) % Modulus
  {
    var v := BigEndian(bytes);
    AlphabetPositions();
    ReadSpell(Alphabet, CharValue, Digits(v));
    ModulusIsPow();
    if v < Modulus {
      Overflowed(v, v, 0, Modulus);
    }
  }

  /** Decoding a CIDv0 string into `n` bytes: the inverse the source itself does not have. */
  function DecodeCidV0(s: string, n: nat): (r: Option<seq<Byte>>)
    ensures r.Some? ==> |r.value| == n
  {
    var d := ReadDigits(CharValue, s);
    if d.None? then None else Some(ToBytes(Val58(d.value), n))
  }

  /** While the multihash's value fits in 46 digits, decoding its CID gives the multihash back. */
  lemma CidV0RoundTrip(bytes: seq<Byte>)
    requires BigEndian(bytes) < Modulus
    ensures DecodeCidV0(CidV0(bytes), |bytes|) == Some(bytes)
  {
    CidV0Value(bytes);
    Overflowed(BigEndian(bytes), BigEndian(bytes), 0, Modulus);
    ToBytesBigEndian(bytes);
  }

  /** Leading zero bytes add nothing: they get no '1' digits, unlike standard base58. */
  lemma CidV0LeadingZeros(zeros: seq<Byte>, bytes: seq<Byte>)
    requires forall i :: 0 <= i < |zeros| ==> zeros[i] == 0
    ensures CidV0(zeros + bytes) == CidV0(bytes)
  {
    ZeroBytes(zeros);
    BigEndianAppend(zeros, bytes);
  }

  lemma {:induction false} ZeroBytes(zeros: seq<Byte>)
    requires forall i :: 0 <= i < |zeros| ==> zeros[i] == 0
    ensures BigEndian(zeros) == 0
  {
    if zeros != [] {
      ZeroBytes(zeros[..|zeros| - 1]);
    }
  }

  /** A value with exactly `n` base-58 digits: their count, and the first digit is the quotient by 58^(n-1). */
  lemma CanonicalLeading(v: nat, n: nat)
    requires n > 0 && Pow(58, n - 1) <= v < Pow(58, n)
    ensures |Canonical(v)| == n && Canonical(v)[0] == v / Pow(58, n - 1)
  {
    var d := Canonical(v);
    CanonicalLength(v, n);
    Val58Bound(d);
    if |d| < n {
      PowMonotone(58, |d|, n - 1);
    }
    Val58Append([d[0]], d[1..]);
    assert d == [d[0]] + d[1..];
    assert Val58([d[0]]) == d[0];
    Val58Bound(d[1..]);
    DivModUnique(v, d[0], Val58(d[1..]), Pow(58, n - 1));
  }

  /** A sha2-256 multihash (0x12, 0x20, then 32 digest bytes) always gives 46 characters starting with 'Q'. */
  lemma CidV0Multihash(digest: seq<Byte>)
    requires |digest| == 32
    ensures |CidV0([0x12, 0x20] + digest)| == Size
    ensures CidV0([0x12, 0x20] + digest)[0] == 'Q'
  {
    var v := BigEndian([0x12, 0x20] + digest);
    var p := Pow(58, 45);
    MultihashValue(digest);
    ModulusIsPow();
    CanonicalLeading(v, Size);
    DivModUnique(v, 23, v - 23 * p, p);
    assert Alphabet[23] == Run('P', 11)[1];
  }

  /** The value of such a multihash has 23 as its leading base-58 digit of 46. */
  lemma MultihashValue(digest: seq<Byte>)
    requires |digest| == 32
    ensures Pow(58, Size) == 58 * Pow(58, 45)
    ensures 23 * Pow(58, 45) <= BigEndian([0x12, 0x20] + digest) < 24 * Pow(58, 45)
  {
    var head: seq<Byte> := [0x12, 0x20];
    BigEndianAppend(head, digest);
    assert head[..1] == [0x12];
    assert BigEndian(head) == 0x1220;
    BigEndianBound(digest);
    DigestRange();
    ModulusIsPow();
    assert Pow(58, Size) == 58 * Pow(58, 45);
    assert Pow(58, 45) == 22607873285027655873860657001472988373879490141498863404231658646658012170682368;
  }

  lemma DigestRange()
    ensures Pow(256, 32) == 115792089237316195423570985008687907853269984665640564039457584007913129639936
  {
    assert Pow(256, 8) == 18446744073709551616;
    PowAdd(256, 8, 8);
    assert Pow(256, 16) == 340282366920938463463374607431768211456;
    PowAdd(256, 16, 16);
  }
}
