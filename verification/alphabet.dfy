/**
 The Bitap pattern alphabet: every character of the pattern is mapped to a
 bitmask in which the character at index i owns bit `len - i - 1`, so the
 first character owns the highest bit and the last character bit 0. A
 character repeated in the pattern ORs its bits together; a character absent
 from the pattern has no entry (its mask is taken as 0).
 */
module Alphabet {
  import opened Bits

  /** The longest pattern whose bits `1 << (len - i - 1)` all fit a positive 64-bit Int. */
  const MaxPatternLength: nat := 63

  /** The characters occurring in s. */
  function Chars(s: seq<char>): set<char>
  {
    set i | 0 <= i < |s| :: s[i]
  }

  /** The mask a map gives c, with absence read as 0. */
  function MaskOf(alphabet: map<char, nat>, c: char): nat
  {
    if c in alphabet then alphabet[c] else 0
  }

  /** One iteration of the encoding loop: OR bit `bit` into c's mask. */
  function AddBit(alphabet: map<char, nat>, c: char, bit: nat): map<char, nat>
  {
    alphabet[c := BitOr(MaskOf(alphabet, c), Pow2(bit))]
  }

  /**
   The alphabet after the loop has visited the first n characters of the
   pattern: it has an entry for exactly the characters visited so far.
   */
  function AlphabetPrefix(pattern: seq<char>, n: nat): (alphabet: map<char, nat>)
    requires n <= |pattern|
    ensures alphabet.Keys == set i | 0 <= i < n :: pattern[i]
  {
    if n == 0 then map[]
    else
      assert pattern[..n] == pattern[..n - 1] + [pattern[n - 1]];
      AddBit(AlphabetPrefix(pattern, n - 1), pattern[n - 1], |pattern| - n)
  }

  /**
   Bit k of a mask in the alphabet of the first n characters is set iff k is
   owned by one of those characters (k >= len - n) and that character is c.
   */
  ghost predicate PrefixBits(pattern: seq<char>, n: nat, alphabet: map<char, nat>)
    requires n <= |pattern|
  {
    forall c, k: nat :: c in alphabet ==>
      (HasBit(alphabet[c], k) <==> |pattern| - n <= k < |pattern| && pattern[|pattern| - 1 - k] == c)
  }

  /** The key set of the prefix alphabet, as a set of characters. */
  lemma AlphabetPrefixKeys(pattern: seq<char>, n: nat)
    requires n <= |pattern|
    ensures AlphabetPrefix(pattern, n).Keys == Chars(pattern[..n])
  {
    var alphabet := AlphabetPrefix(pattern, n);
    forall c | c in Chars(pattern[..n])
      ensures c in alphabet
    {
      var i :| 0 <= i < n && pattern[..n][i] == c;
    }
  }

  /** After `AddBit`, a mask has bit k set iff it had it before or the new bit is k of c. */
  lemma AddBitBits(alphabet: map<char, nat>, c0: char, bit: nat, c: char, k: nat)
    requires c in AddBit(alphabet, c0, bit)
    ensures HasBit(AddBit(alphabet, c0, bit)[c], k)
            <==> (c == c0 && k == bit) || (c in alphabet && HasBit(alphabet[c], k))
  {
    if c == c0 {
      BitOrBits(MaskOf(alphabet, c0), Pow2(bit), k);
      Pow2Bits(bit, k);
      if c0 !in alphabet {
        NoBitOfZero(k);
      }
    }
  }

  /** One loop iteration keeps the bits of every mask as `PrefixBits` describes them. */
  lemma AlphabetPrefixBitsStep(pattern: seq<char>, n: nat, c: char, k: nat)
    requires 0 < n <= |pattern|
    requires PrefixBits(pattern, n - 1, AlphabetPrefix(pattern, n - 1))
    requires c in AlphabetPrefix(pattern, n)
    ensures HasBit(AlphabetPrefix(pattern, n)[c], k)
            <==> |pattern| - n <= k < |pattern| && pattern[|pattern| - 1 - k] == c
  {
    var prev := AlphabetPrefix(pattern, n - 1);
    AddBitBits(prev, pattern[n - 1], |pattern| - n, c, k);
    if c in prev {
      assert HasBit(prev[c], k)
             <==> |pattern| - (n - 1) <= k < |pattern| && pattern[|pattern| - 1 - k] == c;
    }
  }

  /** The loop invariant: after n characters, the keys are those characters and each bit sits in its owner's mask. */
  lemma {:induction false} AlphabetPrefixInvariant(pattern: seq<char>, n: nat)
    requires n <= |pattern|
    ensures AlphabetPrefix(pattern, n).Keys == Chars(pattern[..n])
    ensures PrefixBits(pattern, n, AlphabetPrefix(pattern, n))
  {
    AlphabetPrefixKeys(pattern, n);
    if n > 0 {
      AlphabetPrefixInvariant(pattern, n - 1);
      forall c, k: nat | c in AlphabetPrefix(pattern, n)
        ensures HasBit(AlphabetPrefix(pattern, n)[c], k)
                <==> |pattern| - n <= k < |pattern| && pattern[|pattern| - 1 - k] == c
      {
        AlphabetPrefixBitsStep(pattern, n, c, k);
      }
    }
  }

  /**
   The alphabet of a pattern: its keys are the pattern's characters, and bit k
   of a character's mask is set iff the character sits at index `len - 1 - k`.
   */
  function PatternAlphabet(pattern: seq<char>): (alphabet: map<char, nat>)
    requires |pattern| <= MaxPatternLength
    ensures alphabet.Keys == Chars(pattern)
    ensures forall c, k: nat :: c in alphabet ==>
              (HasBit(alphabet[c], k) <==> k < |pattern| && pattern[|pattern| - 1 - k] == c)
  {
    AlphabetPrefixInvariant(pattern, |pattern|);
    assert pattern[..|pattern|] == pattern;
    AlphabetPrefix(pattern, |pattern|)
  }

  /** The contract of `PatternAlphabet`, for an arbitrary map. */
  ghost predicate Encodes(alphabet: map<char, nat>, pattern: seq<char>)
  {
    && alphabet.Keys == Chars(pattern)
    && forall c, k: nat :: c in alphabet ==>
         (HasBit(alphabet[c], k) <==> k < |pattern| && pattern[|pattern| - 1 - k] == c)
  }

  /** The loop of the source, visiting the characters left to right with their index. */
  method CalculatePatternAlphabet(pattern: seq<char>) returns (alphabet: map<char, nat>)
    requires |pattern| <= MaxPatternLength
    ensures alphabet == PatternAlphabet(pattern)
  {
    var len := |pattern|;
    alphabet := map[];
    var i := 0;
    while i < len
      invariant 0 <= i <= len
      invariant alphabet == AlphabetPrefix(pattern, i)
    {
      var c := pattern[i];
      alphabet := alphabet[c := BitOr(if c in alphabet then alphabet[c] else 0, Pow2(len - i - 1))];
      i := i + 1;
    }
  }

  /** The empty pattern has the empty alphabet. */
  lemma EmptyPatternAlphabet()
    ensures PatternAlphabet([]) == map[]
  {
  }

  /** Every mask is non-zero, below 2^len, and so fits a positive 64-bit Int. */
  lemma AlphabetMaskBounds(pattern: seq<char>, c: char)
    requires |pattern| <= MaxPatternLength
    requires c in PatternAlphabet(pattern)
    ensures 1 <= PatternAlphabet(pattern)[c] < Pow2(|pattern|) <= Pow2(MaxPatternLength)
  {
    EncodedMaskBounds(PatternAlphabet(pattern), pattern, c);
    Pow2Monotone(|pattern|, MaxPatternLength);
  }

  /** The bounds for any map that encodes the pattern bit by bit. */
  lemma EncodedMaskBounds(alphabet: map<char, nat>, pattern: seq<char>, c: char)
    requires Encodes(alphabet, pattern) && c in alphabet
    ensures 1 <= alphabet[c] < Pow2(|pattern|)
  {
    var len := |pattern|;
    BoundByBits(alphabet[c], len);
    var i :| 0 <= i < len && pattern[i] == c;
    assert pattern[len - 1 - (len - 1 - i)] == c;
    assert HasBit(alphabet[c], len - 1 - i);
    NoBitOfZero(len - 1 - i);
  }

  /** The masks of two distinct characters share no bit. */
  lemma AlphabetMasksDisjoint(pattern: seq<char>, c: char, d: char, k: nat)
    requires |pattern| <= MaxPatternLength
    requires c in PatternAlphabet(pattern) && d in PatternAlphabet(pattern) && c != d
    ensures !(HasBit(PatternAlphabet(pattern)[c], k) && HasBit(PatternAlphabet(pattern)[d], k))
  {
  }

  /** The mask of c is the sum of the bits `1 << (len - i - 1)` over the indices i holding c. */
  function OccurrenceSum(pattern: seq<char>, c: char, n: nat): nat
    requires n <= |pattern|
  {
    if n == 0 then 0
    else OccurrenceSum(pattern, c, n - 1) + (if pattern[n - 1] == c then Pow2(|pattern| - n) else 0)
  }

  /** The bit the n-th character brings is not yet set in any mask. */
  lemma NextBitIsFresh(pattern: seq<char>, n: nat, c: char, k: nat)
    requires 0 < n <= |pattern|
    ensures !(HasBit(MaskOf(AlphabetPrefix(pattern, n - 1), c), k) && HasBit(Pow2(|pattern| - n), k))
  {
    AlphabetPrefixInvariant(pattern, n - 1);
    Pow2Bits(|pattern| - n, k);
    if c !in AlphabetPrefix(pattern, n - 1) {
      NoBitOfZero(k);
    }
  }

  /** OR-ing in the loop never meets a bit already set, so the masks are sums of distinct powers of two. */
  lemma {:induction false} AlphabetPrefixIsSum(pattern: seq<char>, n: nat, c: char)
    requires n <= |pattern|
    ensures MaskOf(AlphabetPrefix(pattern, n), c) == OccurrenceSum(pattern, c, n)
  {
    if n > 0 {
      AlphabetPrefixIsSum(pattern, n - 1, c);
      var prev := AlphabetPrefix(pattern, n - 1);
      var bit := |pattern| - n;
      if pattern[n - 1] == c {
        forall k: nat
          ensures !(HasBit(MaskOf(prev, c), k) && HasBit(Pow2(bit), k))
        {
          NextBitIsFresh(pattern, n, c, k);
        }
        DisjointOrIsSum(MaskOf(prev, c), Pow2(bit));
      }
    }
  }

  /** The mask of c, as the sum of the bits of its occurrences. */
  lemma AlphabetMaskIsOccurrenceSum(pattern: seq<char>, c: char)
    requires |pattern| <= MaxPatternLength
    requires c in PatternAlphabet(pattern)
    ensures PatternAlphabet(pattern)[c] == OccurrenceSum(pattern, c, |pattern|)
  {
    AlphabetPrefixIsSum(pattern, |pattern|, c);
  }

  /** In a pattern of distinct characters, the character at index i has the single bit `len - 1 - i`. */
  lemma DistinctCharactersSingleBit(pattern: seq<char>, i: nat)
    requires |pattern| <= MaxPatternLength
    requires forall a, b :: 0 <= a < b < |pattern| ==> pattern[a] != pattern[b]
    requires i < |pattern|
    ensures pattern[i] in PatternAlphabet(pattern)
    ensures PatternAlphabet(pattern)[pattern[i]] == Pow2(|pattern| - 1 - i)
  {
    var alphabet := PatternAlphabet(pattern);
    var len := |pattern|;
    assert pattern[i] in Chars(pattern);
    forall k: nat
      ensures HasBit(alphabet[pattern[i]], k) <==> HasBit(Pow2(len - 1 - i), k)
    {
      Pow2Bits(len - 1 - i, k);
    }
    BitsDetermineValue(alphabet[pattern[i]], Pow2(len - 1 - i));
  }

  /** The OR of the masks of a list of characters, absent ones counting as 0. */
  function OrOver(alphabet: map<char, nat>, cs: seq<char>): nat
  {
    if cs == [] then 0 else BitOr(MaskOf(alphabet, cs[0]), OrOver(alphabet, cs[1..]))
  }

  /** The sum of the masks of a list of characters, absent ones counting as 0. */
  function SumOver(alphabet: map<char, nat>, cs: seq<char>): nat
  {
    if cs == [] then 0 else MaskOf(alphabet, cs[0]) + SumOver(alphabet, cs[1..])
  }

  /** A bit is set in the OR over a listing iff it is set in the mask of some listed character. */
  lemma {:induction false} OrOverBits(alphabet: map<char, nat>, cs: seq<char>, k: nat)
    ensures HasBit(OrOver(alphabet, cs), k) <==> exists i :: 0 <= i < |cs| && HasBit(MaskOf(alphabet, cs[i]), k)
  {
    if cs == [] {
      NoBitOfZero(k);
    } else {
      BitOrBits(MaskOf(alphabet, cs[0]), OrOver(alphabet, cs[1..]), k);
      OrOverBits(alphabet, cs[1..], k);
      if exists i :: 0 <= i < |cs| && HasBit(MaskOf(alphabet, cs[i]), k) {
        var i :| 0 <= i < |cs| && HasBit(MaskOf(alphabet, cs[i]), k);
        if i > 0 {
          assert cs[1..][i - 1] == cs[i];
        }
      }
      if exists i :: 0 <= i < |cs[1..]| && HasBit(MaskOf(alphabet, cs[1..][i]), k) {
        var i :| 0 <= i < |cs[1..]| && HasBit(MaskOf(alphabet, cs[1..][i]), k);
        assert cs[i + 1] == cs[1..][i];
      }
    }
  }

  /** The masks of the pattern's characters together cover exactly the bits 0 .. len-1. */
  lemma AlphabetMasksCover(pattern: seq<char>, cs: seq<char>)
    requires |pattern| <= MaxPatternLength
    requires Chars(cs) == Chars(pattern)
    ensures OrOver(PatternAlphabet(pattern), cs) == Pow2(|pattern|) - 1
  {
    EncodedMasksCover(PatternAlphabet(pattern), pattern, cs);
  }

  /** The cover for any map that encodes the pattern bit by bit. */
  lemma EncodedMasksCover(alphabet: map<char, nat>, pattern: seq<char>, cs: seq<char>)
    requires Encodes(alphabet, pattern) && Chars(cs) == Chars(pattern)
    ensures OrOver(alphabet, cs) == Pow2(|pattern|) - 1
  {
    var len := |pattern|;
    forall k: nat
      ensures HasBit(OrOver(alphabet, cs), k) <==> HasBit(Pow2(len) - 1, k)
    {
      OrOverBits(alphabet, cs, k);
      LowOnesBits(len, k);
      if k < len {
        var c := pattern[len - 1 - k];
        assert c in Chars(pattern);
        var i :| 0 <= i < |cs| && cs[i] == c;
        assert HasBit(MaskOf(alphabet, cs[i]), k);
      } else {
        forall i | 0 <= i < |cs|
          ensures !HasBit(MaskOf(alphabet, cs[i]), k)
        {
          if cs[i] !in alphabet {
            NoBitOfZero(k);
          }
        }
      }
    }
    BitsDetermineValue(OrOver(alphabet, cs), Pow2(len) - 1);
  }

  /** For a listing without repeats, summing the masks is the same as OR-ing them. */
  lemma {:induction false} SumOverIsOrOver(pattern: seq<char>, cs: seq<char>)
    requires |pattern| <= MaxPatternLength
    requires forall a, b :: 0 <= a < b < |cs| ==> cs[a] != cs[b]
    ensures SumOver(PatternAlphabet(pattern), cs) == OrOver(PatternAlphabet(pattern), cs)
  {
    var alphabet := PatternAlphabet(pattern);
    if cs != [] {
      SumOverIsOrOver(pattern, cs[1..]);
      var head := MaskOf(alphabet, cs[0]);
      var rest := OrOver(alphabet, cs[1..]);
      forall k: nat
        ensures !(HasBit(head, k) && HasBit(rest, k))
      {
        OrOverBits(alphabet, cs[1..], k);
        NoBitOfZero(k);
      }
      DisjointOrIsSum(head, rest);
    }
  }

  /** The masks of the distinct characters sum to 2^len - 1. */
  lemma AlphabetMasksSum(pattern: seq<char>, cs: seq<char>)
    requires |pattern| <= MaxPatternLength
    requires Chars(cs) == Chars(pattern)
    requires forall a, b :: 0 <= a < b < |cs| ==> cs[a] != cs[b]
    ensures SumOver(PatternAlphabet(pattern), cs) == Pow2(|pattern|) - 1
  {
    SumOverIsOrOver(pattern, cs);
    AlphabetMasksCover(pattern, cs);
  }

  /** "abc" encodes as {a: 0b100, b: 0b010, c: 0b001}. */
  lemma AlphabetOfAbc()
    ensures PatternAlphabet("abc") == map['a' := 4, 'b' := 2, 'c' := 1]
  {
    assert AlphabetPrefix("abc", 1) == map['a' := 4];
    assert AlphabetPrefix("abc", 2) == map['a' := 4, 'b' := 2];
  }

  /** "aba" encodes as {a: 0b101, b: 0b010}: the repeated 'a' ORs bits 2 and 0. */
  lemma AlphabetOfAba()
    ensures PatternAlphabet("aba") == map['a' := 5, 'b' := 2]
  {
    assert AlphabetPrefix("aba", 1) == map['a' := 4];
    assert AlphabetPrefix("aba", 2) == map['a' := 4, 'b' := 2];
    assert BitOr(4, 1) == 5;
  }
}
