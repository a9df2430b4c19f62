/**
 Turning a match mask into the ranges of the text it marks. The mask is walked
 in step with a cursor over the text's characters; a run of 1s becomes one
 half-open range `start..<end` of character offsets. Mask entries are Swift
 `Int`s: values other than 0 and 1 neither open nor close a run.
 */
module Ranges {

  datatype Option<T> = None | Some(value: T)

  /** The half-open range `start..<end` of character offsets. */
  datatype Range = Range(start: nat, end: nat)

  /** The loop state: the ranges closed so far, and the start of the run still open. */
  datatype Scan = Scan(ranges: seq<Range>, start: Option<nat>)

  /** Every range is non-empty and ends before the next one starts, so ranges ascend and never touch. */
  predicate WellFormed(rs: seq<Range>)
  {
    && (forall j :: 0 <= j < |rs| ==> rs[j].start < rs[j].end)
    && (forall i, j :: 0 <= i < j < |rs| ==> rs[i].end < rs[j].start)
  }

  /** Offset k lies in some range. */
  predicate Covered(rs: seq<Range>, k: int)
  {
    exists j :: 0 <= j < |rs| && rs[j].start <= k < rs[j].end
  }

  /** Every entry of the mask is 0 or 1. */
  predicate Binary(mask: seq<int>)
  {
    forall k :: 0 <= k < |mask| ==> mask[k] == 0 || mask[k] == 1
  }

  /**
   One iteration of the loop, for mask entry `bit` at character offset `index`.
   A 1 leaves a run open, keeping the start of one already open; a 0 leaves none
   open, closing the open run at `index`; any other entry changes nothing. At
   most one range is added, after the ones already closed.
   */
  function Step(s: Scan, bit: int, index: nat): (r: Scan)
    ensures |s.ranges| <= |r.ranges| <= |s.ranges| + 1 && r.ranges[..|s.ranges|] == s.ranges
    ensures bit == 1 ==> r.start.Some?
    ensures bit == 0 ==> r.start.None?
    ensures bit != 0 && bit != 1 ==> r == s
    ensures s.start.Some? && r.start.Some? ==> r.start == s.start
    ensures s.start.None? && r.start.Some? ==> r.start.value == index
    ensures |r.ranges| > |s.ranges| ==> s.start.Some? && bit == 0 && r.ranges[|s.ranges|] == Range(s.start.value, index)
    ensures s.start.Some? && bit == 0 ==> r.ranges == s.ranges + [Range(s.start.value, index)]
  {
    if s.start.None? && bit == 1 then Scan(s.ranges, Some(index))
    else if s.start.Some? && bit == 0 then Scan(s.ranges + [Range(s.start.value, index)], None)
    else s
  }

  /**
   The loop state after the first n mask entries. The closed ranges are well
   formed and lie before offset n and before the open run; a 1 leaves a run
   open and a 0 leaves none.
   */
  function ScanPrefix(mask: seq<int>, n: nat): (s: Scan)
    requires n <= |mask|
    ensures WellFormed(s.ranges)
    ensures forall j :: 0 <= j < |s.ranges| ==> s.ranges[j].end < n
    ensures s.start.Some? ==> s.start.value < n
    ensures s.start.Some? ==> forall j :: 0 <= j < |s.ranges| ==> s.ranges[j].end < s.start.value
    ensures s.start.Some? ==> n > 0 && mask[n - 1] != 0
    ensures n > 0 && mask[n - 1] == 1 ==> s.start.Some?
  {
    if n == 0 then Scan([], None)
    else Step(ScanPrefix(mask, n - 1), mask[n - 1], n - 1)
  }

  /**
   The ranges of the text the mask marks. A run still open after the last
   entry is closed at the end of the text, provided the last entry is 1.
   */
  function FindRanges(mask: seq<int>, text: seq<char>): (r: seq<Range>)
    requires |mask| <= |text|
    ensures WellFormed(r)
    ensures forall j :: 0 <= j < |r| ==> r[j].end <= |text|
  {
    var s := ScanPrefix(mask, |mask|);
    if s.start.Some? && |mask| > 0 && mask[|mask| - 1] == 1 then s.ranges + [Range(s.start.value, |text|)]
    else s.ranges
  }

  /** The loop of the source: one mask entry per character, advancing the text cursor each time. */
  method FindRangesInText(mask: seq<int>, text: seq<char>) returns (ranges: seq<Range>)
    requires |mask| <= |text|
    ensures ranges == FindRanges(mask, text)
    ensures WellFormed(ranges)
  {
    ranges := [];
    var start: Option<nat> := None;
    var index := 0;
    while index < |mask|
      invariant 0 <= index <= |mask|
      invariant Scan(ranges, start) == ScanPrefix(mask, index)
    {
      var bit := mask[index];
      if start.None? && bit == 1 {
        start := Some(index);
      } else if start.Some? && bit == 0 {
        ranges := ranges + [Range(start.value, index)];
        start := None;
      }
      index := index + 1;
    }
    if start.Some? && |mask| > 0 && mask[|mask| - 1] == 1 {
      ranges := ranges + [Range(start.value, |text|)];
    }
  }

  lemma CoveredAppend(rs: seq<Range>, r: Range, k: int)
    ensures Covered(rs + [r], k) <==> Covered(rs, k) || r.start <= k < r.end
  {
    var rs' := rs + [r];
    if Covered(rs, k) {
      var j :| 0 <= j < |rs| && rs[j].start <= k < rs[j].end;
      assert rs'[j] == rs[j];
    }
    if r.start <= k < r.end {
      assert rs'[|rs|] == r;
    }
    if Covered(rs', k) {
      var j :| 0 <= j < |rs'| && rs'[j].start <= k < rs'[j].end;
      if j < |rs| {
        assert rs[j] == rs'[j];
      }
    }
  }

  /** Offset k lies in a closed range or in the run still open. */
  predicate Marks(s: Scan, k: int)
  {
    Covered(s.ranges, k) || (s.start.Some? && s.start.value <= k)
  }

  /**
   One loop iteration, at a 0 or 1 entry, keeps each offset before it marked
   iff its entry is 1, and marks its own offset iff it is 1.
   */
  lemma ScanPrefixCoverageStep(mask: seq<int>, n: nat, k: int)
    requires 0 < n <= |mask| && (mask[n - 1] == 0 || mask[n - 1] == 1) && 0 <= k < n
    requires k < n - 1 ==> (mask[k] == 1 <==> Marks(ScanPrefix(mask, n - 1), k))
    ensures mask[k] == 1 <==> Marks(ScanPrefix(mask, n), k)
  {
    var prev := ScanPrefix(mask, n - 1);
    var p := n - 1;
    if prev.start.Some? && mask[p] == 0 {
      CoveredAppend(prev.ranges, Range(prev.start.value, p), k);
    }
    if Covered(prev.ranges, k) {
      var j :| 0 <= j < |prev.ranges| && prev.ranges[j].start <= k < prev.ranges[j].end;
      assert k < p;
    }
  }

  /**
   For a 0/1 mask, an offset k < n is 1 in the mask iff it lies in a closed
   range or in the run still open.
   */
  lemma {:induction false} ScanPrefixCoverage(mask: seq<int>, n: nat)
    requires Binary(mask) && n <= |mask|
    ensures forall k :: 0 <= k < n ==> (mask[k] == 1 <==> Marks(ScanPrefix(mask, n), k))
  {
    if n > 0 {
      ScanPrefixCoverage(mask, n - 1);
      forall k | 0 <= k < n
        ensures mask[k] == 1 <==> Marks(ScanPrefix(mask, n), k)
      {
        ScanPrefixCoverageStep(mask, n, k);
      }
    }
  }

  /**
   Closing the final run of a 0/1 mask: an offset within the mask is covered
   iff the scan marks it, and one past the mask's end iff the mask ends on 1.
   */
  lemma FindRangesCoverageAt(mask: seq<int>, text: seq<char>, k: int)
    requires Binary(mask) && |mask| <= |text| && 0 <= k < |text|
    ensures k < |mask| ==> (Covered(FindRanges(mask, text), k) <==> Marks(ScanPrefix(mask, |mask|), k))
    ensures |mask| <= k ==> (Covered(FindRanges(mask, text), k) <==> |mask| > 0 && mask[|mask| - 1] == 1)
  {
    var s := ScanPrefix(mask, |mask|);
    if s.start.Some? && |mask| > 0 && mask[|mask| - 1] == 1 {
      CoveredAppend(s.ranges, Range(s.start.value, |text|), k);
    }
    if Covered(s.ranges, k) {
      var j :| 0 <= j < |s.ranges| && s.ranges[j].start <= k < s.ranges[j].end;
      assert k < |mask|;
    }
  }

  /**
   For a 0/1 mask, an offset before the mask's end is covered iff its entry is
   1; an offset past the mask's end is covered iff the mask ends on 1, since
   the last run is closed at the end of the text.
   */
  lemma FindRangesCoverage(mask: seq<int>, text: seq<char>)
    requires Binary(mask) && |mask| <= |text|
    ensures forall k :: 0 <= k < |mask| ==> (Covered(FindRanges(mask, text), k) <==> mask[k] == 1)
    ensures forall k :: |mask| <= k < |text| ==>
              (Covered(FindRanges(mask, text), k) <==> |mask| > 0 && mask[|mask| - 1] == 1)
    ensures forall k :: Covered(FindRanges(mask, text), k) ==> 0 <= k < |text|
  {
    var r := FindRanges(mask, text);
    ScanPrefixCoverage(mask, |mask|);
    forall k | Covered(r, k)
      ensures 0 <= k < |text|
    {
      var j :| 0 <= j < |r| && r[j].start <= k < r[j].end;
    }
    forall k | 0 <= k < |text|
      ensures Covered(r, k) <==> (if k < |mask| then mask[k] == 1 else |mask| > 0 && mask[|mask| - 1] == 1)
    {
      FindRangesCoverageAt(mask, text, k);
    }
  }

  /** When the mask has one entry per character, the ranges cover exactly the 1s. */
  lemma FindRangesMatchesMask(mask: seq<int>, text: seq<char>)
    requires Binary(mask) && |mask| == |text|
    ensures forall k :: 0 <= k < |text| ==> (Covered(FindRanges(mask, text), k) <==> mask[k] == 1)
  {
    FindRangesCoverage(mask, text);
  }

  /**
   When the mask has one entry per character, every range is a maximal run of
   1s: the entries just before its start and at its end are 0, or lie outside
   the text.
   */
  lemma FindRangesMaximalRuns(mask: seq<int>, text: seq<char>, j: nat)
    requires Binary(mask) && |mask| == |text|
    requires j < |FindRanges(mask, text)|
    ensures var r := FindRanges(mask, text)[j];
            && (forall k :: r.start <= k < r.end ==> mask[k] == 1)
            && (r.start == 0 || mask[r.start - 1] == 0)
            && (r.end == |text| || mask[r.end] == 0)
  {
    var rs := FindRanges(mask, text);
    var r := rs[j];
    FindRangesCoverage(mask, text);
    forall k | r.start <= k < r.end
      ensures mask[k] == 1
    {
      assert Covered(rs, k);
    }
    if r.start > 0 {
      assert !Covered(rs, r.start - 1);
    }
    if r.end < |text| {
      assert !Covered(rs, r.end);
    }
  }

  /** For a 0/1 mask, no ranges come back exactly when the mask has no 1. */
  lemma FindRangesEmptyIffNoOnes(mask: seq<int>, text: seq<char>)
    requires Binary(mask) && |mask| <= |text|
    ensures FindRanges(mask, text) == [] <==> forall k :: 0 <= k < |mask| ==> mask[k] == 0
  {
    var r := FindRanges(mask, text);
    FindRangesCoverage(mask, text);
    if r != [] {
      assert Covered(r, r[0].start);
    }
    if exists k :: 0 <= k < |mask| && mask[k] == 1 {
      var k :| 0 <= k < |mask| && mask[k] == 1;
      assert Covered(r, k);
    }
  }

  /** Before the first 1, the loop has closed no range and left none open. */
  lemma {:induction false} ScanPrefixNoOnes(mask: seq<int>, n: nat)
    requires n <= |mask|
    requires forall k :: 0 <= k < n ==> mask[k] != 1
    ensures ScanPrefix(mask, n) == Scan([], None)
  {
    if n > 0 {
      ScanPrefixNoOnes(mask, n - 1);
    }
  }

  /** A mask with no 1 in it, binary or not, yields no ranges. */
  lemma FindRangesNoOnes(mask: seq<int>, text: seq<char>)
    requires |mask| <= |text|
    requires forall k :: 0 <= k < |mask| ==> mask[k] != 1
    ensures FindRanges(mask, text) == []
  {
    ScanPrefixNoOnes(mask, |mask|);
  }

  /** Over a prefix of 1s, one run is open from offset 0 and nothing is closed. */
  lemma {:induction false} ScanPrefixAllOnes(mask: seq<int>, n: nat)
    requires 0 < n <= |mask|
    requires forall k :: 0 <= k < n ==> mask[k] == 1
    ensures ScanPrefix(mask, n) == Scan([], Some(0))
  {
    if n > 1 {
      ScanPrefixAllOnes(mask, n - 1);
    }
  }

  /** A non-empty all-ones mask yields the single range spanning the whole text. */
  lemma FindRangesAllOnes(mask: seq<int>, text: seq<char>)
    requires 0 < |mask| <= |text|
    requires forall k :: 0 <= k < |mask| ==> mask[k] == 1
    ensures FindRanges(mask, text) == [Range(0, |text|)]
  {
    ScanPrefixAllOnes(mask, |mask|);
  }

  /** For a 0/1 mask, the `last == 1` test before closing the final run never fails. */
  lemma FinalRunClosedIffOpen(mask: seq<int>)
    requires Binary(mask)
    ensures ScanPrefix(mask, |mask|).start.Some? <==> |mask| > 0 && mask[|mask| - 1] == 1
  {
  }

  /** [0, 1, 1, 0, 1, 1, 1] over seven characters gives 1..<3 and 4..<7. */
  lemma FindRangesExample()
    ensures FindRanges([0, 1, 1, 0, 1, 1, 1], "abcdefg") == [Range(1, 3), Range(4, 7)]
  {
  }

  /** A mask shorter than the text closes a final run at the text's end, not the mask's. */
  lemma FindRangesShortMask()
    ensures FindRanges([0, 1], "abcd") == [Range(1, 4)]
  {
    assert ScanPrefix([0, 1], 2) == Scan([], Some(1));
  }

  /**
   Entries other than 0 and 1 extend an open run, and a run still open when the
   mask ends on such an entry is dropped.
   */
  lemma NonBinaryEntries()
    ensures FindRanges([1, 2, 0], "abc") == [Range(0, 2)]
    ensures FindRanges([1, 2], "ab") == []
  {
    assert ScanPrefix([1, 2, 0], 2) == Scan([], Some(0));
    assert ScanPrefix([1, 2], 2) == Scan([], Some(0));
  }
}
