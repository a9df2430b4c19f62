# FuseUtilities in Dafny

A model of the three primitives under the Bitap (shift-or) fuzzy matcher of
fuse-swift, `FuseUtilities`:

- `calculateScore` turns a match's error count and location into one score:
  `e / patternLength + |x - loc| / distance`. When `distance` is 0, the score is
  1.0 for a match away from the expected location, and the error ratio for a
  match at it. The pattern overload scores with the pattern's character count.
  (`score.dfy`, module `Score`)
- `calculatePatternAlphabet` maps every character of the pattern to a bitmask.
  The character at index `i` owns bit `len - i - 1`, and a repeated character
  ORs its bits together. (`alphabet.dfy`, module `Alphabet`, on top of the
  natural-number bit operations of `bits.dfy`, module `Bits`)
- `findRanges` walks a match mask in step with the text. It returns the runs
  of 1s as half-open ranges of character offsets. A run still open at the end
  is closed at the end of the text. (`ranges.dfy`, module `Ranges`)

Modelling choices:

- A Swift `String` is a `seq<char>`, and a `String.Index` is a character offset (`nat`).
- A Dafny `char` stands for a Swift `Character`. A `char` is one Unicode scalar
  compared by identity. A `Character` is an extended grapheme cluster compared
  by canonical equivalence. So `pattern.count`, `enumerated()`, the alphabet's
  keys and the text cursor of `findRanges` all count and compare whole
  `Character`s, and the model treats each one as a single `char`.
- A `Range<String.Index>` is `Range(start, end)`, meaning `start..<end`.
- A `Double` is `Score.Double`. Its finite values are exact reals. It also has
  the two infinities and NaN, which Swift produces when dividing by a zero
  pattern length.
- An alphabet mask is a `nat`. `1 << k` is `Bits.Pow2(k)`, `|` is `Bits.BitOr`,
  and "bit k is set" is `Bits.HasBit`.
- Each loop is written twice: as a left-to-right fold (`AlphabetPrefix`,
  `ScanPrefix`) and as a method whose loop mirrors the source
  (`CalculatePatternAlphabet`, `FindRangesInText`). Each method is proved equal
  to its fold.

Where the code and its documentation disagree, the model follows the code:

- The doc comment of `findRanges` writes its example with inclusive ends
  (`1..2`, `4..6`). The code returns half-open ranges (`1..<3`, `4..<7`).
- The doc comment says little about the mask. Its example is a 0/1 array
  shown without a text. Its parameter line calls the mask "a string
  representing the value to search for". Nothing in it relates the mask's
  length to the text's. The code takes any `[Int]` that is no longer than the
  text, and so does the model. A run still open after the last entry is
  closed at the end of the text, not at the mask's end (`FindRangesShortMask`).
- Entries other than 0 and 1 extend an open run. If the mask ends on such an
  entry, the `mask.last == 1` test drops the open run (`NonBinaryEntries`).
  For a 0/1 mask that test never fails (`FinalRunClosedIffOpen`).
- A zero pattern length is not rejected. The division yields an infinity or
  NaN, unless a zero `distance` and a distant match short-circuit to 1.0.

## Model

| member | source | states |
|---|---|---|
| `Score.Divide` | Fuse/Classes/FuseUtilities.swift:33 | `Double(e) / Double(patternLength)`: finite iff the divisor is non-zero, and then its product with the divisor is the dividend; a zero divisor gives NaN iff the dividend is 0 and +infinity iff it is positive |
| `Score.AddFinite` | Fuse/Classes/FuseUtilities.swift:38 | the `+` of the accuracy and a finite proximity term: finite iff the accuracy is, then exceeding it by exactly that term; a non-finite accuracy is returned unchanged |
| `Score.CalculateScore` | Fuse/Classes/FuseUtilities.swift:32-39 | the score is finite for a non-zero pattern length; with zero distance it is exactly 1.0 off the expected location and `e / patternLength` at it; otherwise it is `e / patternLength + abs(x - loc) / distance`; with a zero pattern length it is non-finite except for the 1.0 case |
| `Score.CalculateScoreOfPattern` | Fuse/Classes/FuseUtilities.swift:20-22 | the String overload equals the Int overload applied to the pattern's character count, and is finite for a non-empty pattern |
| `Score.PatternScoreDependsOnLengthOnly` | Fuse/Classes/FuseUtilities.swift:20-21 | two patterns of equal length score every match identically |
| `Score.ScoreSymmetric` | Fuse/Classes/FuseUtilities.swift:34 | swapping the match location and the expected location leaves the score unchanged |
| `Score.ScoreShiftInvariant` | Fuse/Classes/FuseUtilities.swift:34 | moving both locations by the same amount leaves the score unchanged |
| `Score.PerfectMatchScoresZero` | Fuse/Classes/FuseUtilities.swift:33-38 | no errors at the expected location scores exactly 0.0, for zero and non-zero distance alike |
| `Score.ScoreNonNegative` | Fuse/Classes/FuseUtilities.swift:33-38 | with a positive pattern length, non-negative errors and non-negative distance, the score is at least 0 |
| `Score.ScoreMonotoneInErrors` | Fuse/Classes/FuseUtilities.swift:33-38 | with a positive pattern length, more errors never lower the score |
| `Score.ScoreMonotoneInProximity` | Fuse/Classes/FuseUtilities.swift:34-38 | with positive distance, a match farther from the expected location never scores lower |
| `Score.ZeroDistanceExactLocation` | Fuse/Classes/FuseUtilities.swift:35-36 | with zero distance, a match at the expected location scores exactly `e / patternLength` |
| `Score.ScoreNotClamped` | Fuse/Classes/FuseUtilities.swift:31-38 | the "1.0 = bad" convention is not enforced: the score can exceed 1 (3.5 for 3 errors in a 1-character pattern, 5 away in a text of 10) |
| `Score.EmptyPatternScore` | Fuse/Classes/FuseUtilities.swift:33-36 | at the expected location, a zero pattern length gives +infinity, -infinity or NaN according to the sign of `e` |
| `Bits.BitOrBits` | Fuse/Classes/FuseUtilities.swift:49 | the OR used to combine masks sets exactly the bits set in either operand |
| `Bits.Pow2Bits` | Fuse/Classes/FuseUtilities.swift:49 | `1 << j` has bit j set and no other |
| `Alphabet.AlphabetPrefix` | Fuse/Classes/FuseUtilities.swift:48-49 | the map after the loop has visited the first n characters has an entry for exactly those characters |
| `Alphabet.AddBitBits` | Fuse/Classes/FuseUtilities.swift:48-49 | one iteration, OR-ing `1 << bit` into the mask of the character read (0 when absent): a mask has bit k afterwards iff it had it before, or it is the mask of the character written and k is the new bit |
| `Alphabet.PatternAlphabet` | Fuse/Classes/FuseUtilities.swift:45-52 | the keys are exactly the pattern's characters; for every k, bit k of a character's mask is set iff `k < len` and the character sits at index `len - 1 - k` |
| `Alphabet.CalculatePatternAlphabet` | Fuse/Classes/FuseUtilities.swift:45-52 | the index-tracking loop computes exactly that alphabet |
| `Alphabet.AlphabetPrefixInvariant` | Fuse/Classes/FuseUtilities.swift:48-49 | after the first n characters, the keys are those characters, and the set bits are exactly the bits owned by those indices, each in its own character's mask |
| `Alphabet.EmptyPatternAlphabet` | Fuse/Classes/FuseUtilities.swift:46-51 | the empty pattern yields the empty map |
| `Alphabet.AlphabetMaskBounds` | Fuse/Classes/FuseUtilities.swift:46-49 | every mask lies in `[1, 2^len)`, hence below `2^63` and positive as a 64-bit Int |
| `Alphabet.AlphabetMasksDisjoint` | Fuse/Classes/FuseUtilities.swift:48-49 | the masks of two different characters share no bit |
| `Alphabet.AlphabetPrefixIsSum` | Fuse/Classes/FuseUtilities.swift:48-49 | the OR never meets a bit that is already set, so each mask is the sum of `2^(len - i - 1)` over the indices i that hold its character |
| `Alphabet.AlphabetMaskIsOccurrenceSum` | Fuse/Classes/FuseUtilities.swift:45-52 | the final mask of a character is the sum of the bits of its occurrences |
| `Alphabet.DistinctCharactersSingleBit` | Fuse/Classes/FuseUtilities.swift:48-49 | in a pattern of distinct characters, the character at index i has the single bit `2^(len - 1 - i)`, so the bit position falls as the index rises |
| `Alphabet.AlphabetMasksCover` | Fuse/Classes/FuseUtilities.swift:46-49 | the OR of the masks of all the pattern's characters, listed in any order and with any repeats, is `2^len - 1` |
| `Alphabet.AlphabetMasksSum` | Fuse/Classes/FuseUtilities.swift:46-49 | the sum of the masks of the distinct characters is `2^len - 1` |
| `Alphabet.AlphabetOfAbc` | Fuse/Classes/FuseUtilities.swift:45-52 | `"abc"` encodes as `{a: 4, b: 2, c: 1}` |
| `Alphabet.AlphabetOfAba` | Fuse/Classes/FuseUtilities.swift:45-52 | `"aba"` encodes as `{a: 5, b: 2}` |
| `Ranges.Step` | Fuse/Classes/FuseUtilities.swift:69-74 | one loop iteration: a 1 leaves a run open, keeping an existing start or starting at the current offset; a 0 leaves none open; any other entry changes nothing; a 0 closing an open run appends exactly `start..<index` after the closed ranges, and nothing else appends |
| `Ranges.ScanPrefix` | Fuse/Classes/FuseUtilities.swift:64-78 | after n entries: the closed ranges are non-empty, ascending and non-adjacent, and end before offset n and before the open run's start; a 1 leaves a run open, a 0 leaves none, and an open run implies the last entry is not 0 |
| `Ranges.FindRanges` | Fuse/Classes/FuseUtilities.swift:63-85 | the result is well formed (every range has `start < end`, each ends before the next starts) and lies within the text |
| `Ranges.FindRangesInText` | Fuse/Classes/FuseUtilities.swift:63-85 | the loop that advances a text cursor once per mask entry computes exactly `FindRanges` |
| `Ranges.ScanPrefixCoverage` | Fuse/Classes/FuseUtilities.swift:68-78 | for a 0/1 mask, an offset below n holds a 1 iff a closed range or the open run covers it |
| `Ranges.FindRangesCoverage` | Fuse/Classes/FuseUtilities.swift:63-84 | for a 0/1 mask, an offset within the mask is covered iff its entry is 1; an offset between the mask's end and the text's end is covered iff the mask ends on 1; nothing outside the text is covered |
| `Ranges.FindRangesMatchesMask` | Fuse/Classes/FuseUtilities.swift:68-84 | with one 0/1 entry per character, offset k is covered iff `mask[k] == 1` |
| `Ranges.FindRangesMaximalRuns` | Fuse/Classes/FuseUtilities.swift:68-84 | with one 0/1 entry per character, every range is a maximal run of 1s: bounded by a 0 or by the ends of the text |
| `Ranges.FindRangesEmptyIffNoOnes` | Fuse/Classes/FuseUtilities.swift:63-84 | for a 0/1 mask, no ranges come back iff the mask has no 1 |
| `Ranges.FindRangesNoOnes` | Fuse/Classes/FuseUtilities.swift:68-84 | any mask without a 1 yields no ranges |
| `Ranges.FindRangesAllOnes` | Fuse/Classes/FuseUtilities.swift:68-84 | a non-empty all-ones mask yields the single range `0..<len(text)` |
| `Ranges.FinalRunClosedIffOpen` | Fuse/Classes/FuseUtilities.swift:80 | for a 0/1 mask, a run is open after the loop iff the last entry is 1, so the `mask.last == 1` test never rejects an open run |
| `Ranges.FindRangesExample` | Fuse/Classes/FuseUtilities.swift:56-58 | `[0, 1, 1, 0, 1, 1, 1]` over seven characters gives `1..<3` and `4..<7` |
| `Ranges.FindRangesShortMask` | Fuse/Classes/FuseUtilities.swift:80-81 | a final run of a mask shorter than the text is closed at the text's end |
| `Ranges.NonBinaryEntries` | Fuse/Classes/FuseUtilities.swift:69-81 | an entry of 2 extends an open run; a mask ending on 2 drops its open run |

## Left out

- Score: IEEE-754 rounding is not modelled. Finite doubles are exact reals, so `Double(e)`, the divisions and the addition are exact. The properties above hold of the idealised formula.
- Score: Swift traps on `Int` overflow in `x - loc` and `abs(...)` for extreme values. This is not modelled, because integers are unbounded here.
- Alphabet.PatternAlphabet: requires `len <= 63`. Swift's 64-bit `1 << (len - i - 1)` goes negative at a shift of 63 and becomes 0 beyond that. That smart-shift behaviour is not modelled.
- Alphabet.CalculatePatternAlphabet: the same `len <= 63` bound, for the same reason.
- Ranges.FindRanges: requires `len(mask) <= len(text)`. Advancing the text index past `endIndex` traps in Swift, so longer masks have no result to model.
- Ranges.FindRangesInText: the same bound. `String.Index` and grapheme-cluster stepping are abstracted to one character offset per step.
- Determinism and idempotence of all three operations hold by construction: each is a pure Dafny function. No lemma states them.
- `import Foundation` and the `FuseUtilities` class wrapper carry no behaviour.
