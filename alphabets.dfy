/**
 * Digit alphabets shared by the two CID encoders: a digit is spelled as the character at its
 * position in the alphabet, and read back through a character-to-digit table.
 */
module Alphabets {
  import opened Wrappers

  /** `n` consecutive ASCII characters from `first` on. */
  function Run(first: char, n: nat): (r: string)
    requires first as int + n <= 128
    ensures |r| == n
    ensures forall k :: 0 <= k < n ==> r[k] as int == first as int + k
  {
    seq(n, k requires 0 <= k < n => (first as int + k) as char)
  }

  /** Every digit has a character in `alphabet`. */
  predicate InAlphabet(alphabet: string, d: seq<nat>)
  {
    forall i :: 0 <= i < |d| ==> d[i] < |alphabet|
  }

  /** The characters standing for the digits `d`, in order. */
  function Spell(alphabet: string, d: seq<nat>): (s: string)
    requires InAlphabet(alphabet, d)
    ensures |s| == |d|
  {
    seq(|d|, i requires 0 <= i < |d| => alphabet[d[i]])
  }

  /** `value` reads every character of `alphabet` as its own position. */
  predicate Positions(alphabet: string, value: char -> Option<nat>)
  {
    forall i :: 0 <= i < |alphabet| ==> value(alphabet[i]) == Some(i)
  }

  /** Reading a string back into digits through `value`; `None` at the first character it does not know. */
  function ReadDigits(value: char -> Option<nat>, s: string): (r: Option<seq<nat>>)
    ensures r.Some? ==> |r.value| == |s|
  {
    if s == [] then Some([])
    else
      var c, rest := value(s[0]), ReadDigits(value, s[1..]);
      if c.None? || rest.None? then None else Some([c.value] + rest.value)
  }

  /** Reading back what was spelled gives the digits again, when the table inverts the alphabet. */
  lemma {:induction false} ReadSpell(alphabet: string, value: char -> Option<nat>, d: seq<nat>)
    requires Positions(alphabet, value) && InAlphabet(alphabet, d)
    ensures ReadDigits(value, Spell(alphabet, d)) == Some(d)
  {
    if d != [] {
      assert Spell(alphabet, d)[1..] == Spell(alphabet, d[1..]);
      ReadSpell(alphabet, value, d[1..]);
      assert d == [d[0]] + d[1..];
    }
  }
}
