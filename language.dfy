/** Compiler detection from the first five bytes of runtime bytecode (index.js `detectLanguage`). */
module Language {
  /** `'solidity' | 'vyper' | 'unknown'`. */
  datatype Family = Solidity | Vyper | Unknown

  /**
   * `s.replace('0x', '')`: only the FIRST occurrence of "0x" is removed, wherever it is,
   * and the string is unchanged when there is none.
   */
  function RemoveFirst0x(s: string): string
  {
    if |s| < 2 then s
    else if OccursAt(s, 0) then s[2..]
    else [s[0]] + RemoveFirst0x(s[1..])
  }

  /** "0x" starts at position `i` of `s`. */
  predicate OccursAt(s: string, i: nat)
  {
    i + 2 <= |s| && s[i] == '0' && s[i + 1] == 'x'
  }

  /** `substring(0, 10)`: at most the first ten characters. */
  function Prefix10(s: string): (p: string)
    ensures |p| == if |s| < 10 then |s| else 10
    ensures p == s[..|p|]
  {
    if |s| < 10 then s else s[..10]
  }

  function DetectLanguage(bytecode: string): Family
  {
    var prefix := Prefix10(RemoveFirst0x(bytecode));
    if prefix == "6060604052" || prefix == "6080604052" then Solidity
    else if prefix == "6004361015" || prefix == "341561000a" then Vyper
    else Unknown
  }

  /** With its first "0x" at position `i`, the string loses exactly those two characters. */
  lemma {:induction false} RemoveFirst0xAt(s: string, i: nat)
    requires OccursAt(s, i)
    requires forall j :: 0 <= j < i ==> !OccursAt(s, j)
    ensures RemoveFirst0x(s) == s[..i] + s[i + 2..]
  {
    if i > 0 {
      var t := s[1..];
      assert !OccursAt(s, 0);
      assert RemoveFirst0x(s) == [s[0]] + RemoveFirst0x(t);
      forall j | 0 <= j < i - 1 ensures !OccursAt(t, j) {
        assert !OccursAt(s, j + 1);
      }
      RemoveFirst0xAt(t, i - 1);
      assert [s[0]] + t[..i - 1] == s[..i];
      assert t[i + 1..] == s[i + 2..];
      assert [s[0]] + (t[..i - 1] + t[i + 1..]) == ([s[0]] + t[..i - 1]) + t[i + 1..];
    }
  }

  /** Without any "0x" the string is left as it is. */
  lemma {:induction false} RemoveFirst0xAbsent(s: string)
    requires forall j :: 0 <= j < |s| ==> !OccursAt(s, j)
    ensures RemoveFirst0x(s) == s
  {
    if |s| >= 2 {
      assert !OccursAt(s, 0);
      forall j | 0 <= j < |s| - 1 ensures !OccursAt(s[1..], j) {
        assert !OccursAt(s, j + 1);
      }
      RemoveFirst0xAbsent(s[1..]);
      assert s == [s[0]] + s[1..];
    }
  }

  /** The classification depends on nothing but the first ten characters left after the strip. */
  lemma DetectLanguageFirstTen(a: string, b: string)
    requires Prefix10(RemoveFirst0x(a)) == Prefix10(RemoveFirst0x(b))
    ensures DetectLanguage(a) == DetectLanguage(b)
  {
  }

  /** Both directions of the signature table. */
  lemma DetectLanguageTable(bytecode: string)
    ensures DetectLanguage(bytecode) == Solidity <==>
      Prefix10(RemoveFirst0x(bytecode)) in {"6060604052", "6080604052"}
    ensures DetectLanguage(bytecode) == Vyper <==>
      Prefix10(RemoveFirst0x(bytecode)) in {"6004361015", "341561000a"}
    ensures DetectLanguage(bytecode) == Unknown <==>
      Prefix10(RemoveFirst0x(bytecode)) !in {"6060604052", "6080604052", "6004361015", "341561000a"}
  {
  }

  /** Fewer than ten characters after the strip can match no signature. */
  lemma DetectLanguageShort(bytecode: string)
    requires |RemoveFirst0x(bytecode)| < 10
    ensures DetectLanguage(bytecode) == Unknown
  {
  }

  /** A `0x`-prefixed bytecode that starts with a signature is classified by that signature, whatever follows. */
  lemma DetectLanguageSigned(sig: string, rest: string)
    requires sig in {"6060604052", "6080604052", "6004361015", "341561000a"}
    ensures DetectLanguage("0x" + sig + rest) ==
      if sig in {"6060604052", "6080604052"} then Solidity else Vyper
  {
    var s := "0x" + sig + rest;
    assert OccursAt(s, 0);
    assert s[2..] == sig + rest;
    assert (sig + rest)[..10] == sig;
  }

  /** The comparison is case-sensitive: upper-case hex digits in the Vyper signature give Unknown. */
  lemma DetectLanguageCaseSensitive(rest: string)
    ensures DetectLanguage("0x341561000A" + rest) == Unknown
  {
    var s := "0x341561000A" + rest;
    assert OccursAt(s, 0);
    assert s[2..][..10] == "341561000A";
  }
}
