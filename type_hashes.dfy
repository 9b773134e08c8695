/**
 * The premade hashes of src/premade_type_hashes.rs: unsigned integers hash
 * to their own value, text hashes to the sum of the code points of its
 * characters. Dafny has a single string type, so the three text
 * implementations (`&str`, `str`, `String`), which all call the same
 * function, are the one function CodePointSum here.
 */
module TypeHashes {

  newtype u8 = x: int | 0 <= x < 0x100
  newtype u16 = x: int | 0 <= x < 0x1_0000
  newtype u32 = x: int | 0 <= x < 0x1_0000_0000
  /** `usize` on a 64-bit target. */
  newtype usize = x: int | 0 <= x < 0x1_0000_0000_0000_0000

  /** The hash of a `usize` gives back the value itself. */
  function HashUsize(x: usize): (r: nat)
    ensures r < 0x1_0000_0000_0000_0000 && r as usize == x
  {
    x as nat
  }

  /** A `u8` widens to `usize` without change. */
  function HashU8(x: u8): (r: nat)
    ensures r < 0x100 && r as u8 == x
  {
    x as nat
  }

  /** A `u16` widens to `usize` without change. */
  function HashU16(x: u16): (r: nat)
    ensures r < 0x1_0000 && r as u16 == x
  {
    x as nat
  }

  /** A `u32` widens to `usize` without change. */
  function HashU32(x: u32): (r: nat)
    ensures r < 0x1_0000_0000 && r as u32 == x
  {
    x as nat
  }

  /** The sum of the code points of the characters of `s`, the hash of text. */
  function CodePointSum(s: string): nat
  {
    if s == [] then 0 else s[0] as nat + CodePointSum(s[1..])
  }

  /** Appending a character raises the hash by exactly its code point. */
  lemma {:induction false} CodePointSumAppend(s: string, c: char)
    ensures CodePointSum(s + [c]) == CodePointSum(s) + c as nat
  {
    if s != [] {
      assert (s + [c])[1..] == s[1..] + [c];
      CodePointSumAppend(s[1..], c);
    }
  }

  /** The empty text hashes to 0, a one-character text to its code point. */
  lemma ShortTextHashes(c: char)
    ensures CodePointSum("") == 0
    ensures CodePointSum([c]) == c as nat
  {
  }

  /** "a" (97) and "k" (107) share home slot 7 in a table of ten slots. */
  lemma CollidingLetters()
    ensures CodePointSum("a") == 97 && CodePointSum("k") == 107
    ensures CodePointSum("a") % 10 == CodePointSum("k") % 10 == 7
  {
    ShortTextHashes('a');
    ShortTextHashes('k');
  }

  /**
   * Rearranging the characters does not change the hash: the sum does not
   * depend on order, so anagrams always collide.
   */
  lemma {:induction false} AnagramsCollide(s: string, t: string)
    requires multiset(s) == multiset(t)
    ensures CodePointSum(s) == CodePointSum(t)
    decreases |s|
  {
    if s != [] {
      var c := s[0];
      assert c in multiset(t);
      var k :| 0 <= k < |t| && t[k] == c;
      var t' := t[..k] + t[k + 1..];
      assert t == t[..k] + [c] + t[k + 1..];
      assert s == [c] + s[1..];
      assert multiset(s) == multiset{c} + multiset(s[1..]);
      assert multiset(t) == multiset(t[..k]) + multiset{c} + multiset(t[k + 1..]);
      assert multiset(t') == multiset(t[..k]) + multiset(t[k + 1..]);
      assert multiset(s[1..]) == multiset(s) - multiset{c};
      assert multiset(t') == multiset(t) - multiset{c};
      AnagramsCollide(s[1..], t');
      CodePointSumSplit(t[..k], t[k + 1..], c);
    }
  }

  lemma {:induction false} CodePointSumSplit(a: string, b: string, c: char)
    ensures CodePointSum(a + [c] + b) == c as nat + CodePointSum(a + b)
    decreases |a|
  {
    if a == [] {
      assert a + [c] + b == [c] + b;
      assert ([c] + b)[1..] == b;
      assert a + b == b;
    } else {
      assert (a + [c] + b)[1..] == a[1..] + [c] + b;
      assert (a + b)[1..] == a[1..] + b;
      CodePointSumSplit(a[1..], b, c);
    }
  }

  /**
   * `hash_string_like_types`: a running sum over the characters in order,
   * which ends at the sum of all their code points.
   */
  method HashStringLikeTypes(input: string) returns (sum: nat)
    ensures sum == CodePointSum(input)
  {
    sum := 0;
    for i := 0 to |input|
      invariant sum == CodePointSum(input[..i])
    {
      assert input[..i + 1] == input[..i] + [input[i]];
      CodePointSumAppend(input[..i], input[i]);
      sum := sum + input[i] as nat;
    }
    assert input[..|input|] == input;
  }
}
