/**
 * The per-formatter range arithmetic behind `Format`'s edits and queries
 * (packages/core/src/model/format.ts): what `stretch`, `shrink` and `split`
 * do to one formatter's list, how `extract` clips it, which values
 * `extractFormatsByIndex` reports and which cut points `toGrid` collects.
 * Every lemma says what the edit does to the value of each position.
 */
module RangeEdits {
  import opened Wrappers
  import opened FormatValues
  import opened RangeAlgebra

  /** The larger of a lower bound that is a position and `x`. */
  function AtLeast(lo: nat, x: int): nat
  {
    if x < lo then lo else x
  }

  // ---------------------------------------------------------------------
  // stretch: `count` positions inserted at `index`

  /** One range after `stretch(index, count)`: untouched when it ends before
      `index`; otherwise its end moves by `count`, and its start too when it
      starts at or after `index`. */
  function StretchRange(r: Range, index: nat, count: nat): Range
  {
    if r.end < index then r
    else if r.start >= index then Range(r.start + count, r.end + count, r.value)
    else r.(end := r.end + count)
  }

  function StretchRanges(rs: seq<Range>, index: nat, count: nat): seq<Range>
  {
    seq(|rs|, k requires 0 <= k < |rs| => StretchRange(rs[k], index, count))
  }

  /** The position before the insertion whose format position `p` shows
      after it: positions before `index` keep theirs, the inserted ones take
      the format of the position just before `index`, later ones moved. */
  function StretchSource(index: nat, count: nat, p: int): int
  {
    if p < index then p else if p < index + count then index - 1 else p - count
  }

  lemma StretchCovers(r: Range, index: nat, count: nat, p: int)
    ensures Covers(StretchRange(r, index, count), p) <==> Covers(r, StretchSource(index, count, p))
  {
  }

  /** `stretch` is an insertion: every position shows what its source
      position showed, so text typed at the end of (or inside) a range
      takes that range's format. */
  lemma {:induction false} StretchValueAt(rs: seq<Range>, index: nat, count: nat, p: int)
    ensures ValueAt(StretchRanges(rs, index, count), p) == ValueAt(rs, StretchSource(index, count, p))
  {
    if rs != [] {
      var m := |rs| - 1;
      assert StretchRanges(rs, index, count)[..m] == StretchRanges(rs[..m], index, count);
      StretchCovers(rs[m], index, count, p);
      StretchValueAt(rs[..m], index, count, p);
    }
  }

  /** `stretch` keeps two ranges in order, and makes them touch only when
      they touched before. */
  lemma StretchKeepsOrder(a: Range, b: Range, index: nat, count: nat)
    requires a.start < a.end <= b.start < b.end
    ensures StretchRange(a, index, count).end <= StretchRange(b, index, count).start
    ensures StretchRange(a, index, count).end == StretchRange(b, index, count).start ==> a.end == b.start
  {
  }

  /** `stretch` keeps a canonical list canonical in a slot grown by `count`. */
  lemma StretchKeepsCanonical(rs: seq<Range>, index: nat, count: nat, n: nat)
    requires Canonical(rs, n)
    ensures Canonical(StretchRanges(rs, index, count), n + count)
  {
    var out := StretchRanges(rs, index, count);
    forall k | 0 <= k < |out|
      ensures out[k].start < out[k].end <= n + count && out[k].value == rs[k].value
    {
      assert out[k] == StretchRange(rs[k], index, count);
    }
    forall j, k | 0 <= j < k < |out|
      ensures out[j].end <= out[k].start
      ensures out[j].end == out[k].start ==> rs[j].end == rs[k].start
    {
      assert out[j] == StretchRange(rs[j], index, count) && out[k] == StretchRange(rs[k], index, count);
      StretchKeepsOrder(rs[j], rs[k], index, count);
    }
  }

  // ---------------------------------------------------------------------
  // shrink: `count` positions deleted from `startIndex`

  /** One range after the first pass of `shrink(startIndex, count)`:
      untouched when it ends at or before `startIndex`; otherwise its end,
      and its start when that lies after `startIndex`, drop by `count` but
      not below `startIndex`. */
  function ShrinkRange(r: Range, startIndex: nat, count: nat): Range
  {
    if r.end <= startIndex then r
    else
      var end := AtLeast(startIndex, r.end - count);
      var start := if r.start > startIndex then AtLeast(startIndex, r.start - count) else r.start;
      Range(start, end, r.value)
  }

  function ShrinkRanges(rs: seq<Range>, startIndex: nat, count: nat): seq<Range>
  {
    seq(|rs|, k requires 0 <= k < |rs| => ShrinkRange(rs[k], startIndex, count))
  }

  /** The position before the deletion that position `p` shows after it. */
  function ShrinkSource(startIndex: nat, count: nat, p: int): int
  {
    if p < startIndex then p else p + count
  }

  /** One formatter's list after `shrink`: moved, then normalised. */
  function ShrinkEntry(rs: seq<Range>, startIndex: nat, count: nat, slotLength: nat): seq<Range>
  {
    Normalize(false, ShrinkRanges(rs, startIndex, count), None, slotLength)
  }

  lemma ShrinkCovers(r: Range, startIndex: nat, count: nat, p: int)
    ensures Covers(ShrinkRange(r, startIndex, count), p) <==> Covers(r, ShrinkSource(startIndex, count, p))
  {
  }

  lemma {:induction false} ShrinkRangesValueAt(rs: seq<Range>, startIndex: nat, count: nat, p: int)
    ensures ValueAt(ShrinkRanges(rs, startIndex, count), p) == ValueAt(rs, ShrinkSource(startIndex, count, p))
  {
    if rs != [] {
      var m := |rs| - 1;
      assert ShrinkRanges(rs, startIndex, count)[..m] == ShrinkRanges(rs[..m], startIndex, count);
      ShrinkCovers(rs[m], startIndex, count, p);
      ShrinkRangesValueAt(rs[..m], startIndex, count, p);
    }
  }

  /** `shrink` is a deletion: inside the slot every position shows what
      it showed before the deleted positions were taken out, and the result
      is canonical. */
  lemma ShrinkEntryValueAt(rs: seq<Range>, startIndex: nat, count: nat, slotLength: nat, p: int)
    ensures ValueAt(ShrinkEntry(rs, startIndex, count, slotLength), p)
         == if 0 <= p < slotLength then ValueAt(rs, ShrinkSource(startIndex, count, p)) else None
    ensures Canonical(ShrinkEntry(rs, startIndex, count, slotLength), slotLength)
  {
    NormalizeValueAt(false, ShrinkRanges(rs, startIndex, count), None, slotLength, p);
    ShrinkRangesValueAt(rs, startIndex, count, p);
    NormalizeCanonical(false, ShrinkRanges(rs, startIndex, count), None, slotLength);
  }

  /** Deleting [3, 5) from a slot of 8 where [2, 5) is formatted leaves
      the format on [2, 3) alone. */
  lemma ShrinkInsideRange(v: Value, p: int)
    ensures ValueAt(ShrinkEntry([Range(2, 5, Some(v))], 3, 2, 8), p) == if 2 <= p < 3 then Some(v) else None
  {
    ShrinkEntryValueAt([Range(2, 5, Some(v))], 3, 2, 8, p);
  }

  /** The same deletion, stated on the stored list itself. */
  lemma ShrinkInsideRangeList(v: Value)
    ensures ShrinkEntry([Range(2, 5, Some(v))], 3, 2, 8) == [Range(2, 3, Some(v))]
  {
    var out := ShrinkEntry([Range(2, 5, Some(v))], 3, 2, 8);
    var want := [Range(2, 3, Some(v))];
    forall p
      ensures ValueAt(out, p) == ValueAt(want, p)
    {
      ShrinkInsideRange(v, p);
      assert ValueAt(want, p) == ValueAt([], p) || Covers(want[0], p);
    }
    ShrinkEntryValueAt([Range(2, 5, Some(v))], 3, 2, 8, 0);
    CanonicalUnique(out, want, 8);
  }

  /** The moving pass of `shrink` undoes `stretch`: deleting what was just
      inserted puts every range back where it was, including a range the
      insertion point fell inside. */
  lemma StretchThenShrink(rs: seq<Range>, index: nat, count: nat)
    ensures ShrinkRanges(StretchRanges(rs, index, count), index, count) == rs
  {
    var out := ShrinkRanges(StretchRanges(rs, index, count), index, count);
    forall k | 0 <= k < |rs| ensures out[k] == rs[k] {
      var r := rs[k];
      assert StretchRanges(rs, index, count)[k] == StretchRange(r, index, count);
    }
  }

  /** On a canonical entry the whole of `shrink` undoes `stretch`: the
      moving pass restores the list, and normalising it changes nothing. */
  lemma StretchThenShrinkEntry(rs: seq<Range>, index: nat, count: nat, n: nat)
    requires Canonical(rs, n)
    ensures ShrinkEntry(StretchRanges(rs, index, count), index, count, n) == rs
  {
    StretchThenShrink(rs, index, count);
    NormalizeCanonicalList(rs, n);
  }

  /** `stretch` keeps a normalized entry normalized. */
  lemma StretchKeepsNormalized(rs: seq<Range>, index: nat, count: nat)
    requires Normalized(rs)
    ensures Normalized(StretchRanges(rs, index, count))
  {
    StretchKeepsCanonical(rs, index, count, MaxEnd(rs));
    CanonicalNormalized(StretchRanges(rs, index, count), MaxEnd(rs) + count);
  }

  /** `shrink` leaves an entry of at most one range (a block entry) with at
      most one range. */
  lemma ShrinkAtMostOne(rs: seq<Range>, startIndex: nat, count: nat, slotLength: nat)
    requires |rs| <= 1
    ensures |ShrinkEntry(rs, startIndex, count, slotLength)| <= 1
  {
    NormalizeAtMostOne(ShrinkRanges(rs, startIndex, count), slotLength);
  }

  /** What `shrink` leaves of one entry is canonical for the slot, and an
      entry of at most one range keeps at most one. */
  lemma ShrinkEntryShape(rs: seq<Range>, startIndex: nat, count: nat, slotLength: nat)
    ensures Canonical(ShrinkEntry(rs, startIndex, count, slotLength), slotLength)
    ensures Normalized(ShrinkEntry(rs, startIndex, count, slotLength))
    ensures |rs| <= 1 ==> |ShrinkEntry(rs, startIndex, count, slotLength)| <= 1
  {
    NormalizeCanonical(false, ShrinkRanges(rs, startIndex, count), None, slotLength);
    CanonicalNormalized(ShrinkEntry(rs, startIndex, count, slotLength), slotLength);
    if |rs| <= 1 {
      ShrinkAtMostOne(rs, startIndex, count, slotLength);
    }
  }

  /** `stretch` moves a block range like an inline one: an insertion at
      position 0 shifts the whole block off position 0, where `split` would
      only have grown its end. */
  lemma StretchMovesBlockStart(len: nat, count: nat, v: FormatValue)
    requires count > 0
    ensures StretchRange(Range(0, len, v), 0, count) == Range(count, len + count, v)
    ensures ValueAt([StretchRange(Range(0, len, v), 0, count)], 0) == None
  {
  }

  // ---------------------------------------------------------------------
  // split: `distance` empty positions inserted at `index`

  /** `distance` void positions inserted before position `index`; an index
      past the end appends them. */
  function InsertVoids(values: seq<FormatValue>, index: nat, distance: nat): seq<FormatValue>
  {
    var at := Min(index, |values|);
    values[..at] + seq(distance, _ => None) + values[at..]
  }

  /** An inline formatter's list after `split`: tiled, opened up, re-ranged. */
  function SplitEntry(rs: seq<Range>, index: nat, distance: nat, slotLength: nat): seq<Range>
  {
    Runs(InsertVoids(Tile(rs, slotLength), index, distance))
  }

  /** A block formatter's list after `split`: every end moves by `distance`. */
  function BlockSplit(rs: seq<Range>, distance: nat): seq<Range>
  {
    seq(|rs|, k requires 0 <= k < |rs| => rs[k].(end := rs[k].end + distance))
  }

  /** Growing only the end keeps a block range that starts at 0 covering
      every position of the grown slot. */
  lemma BlockSplitKeepsSpan(len: nat, count: nat, v: FormatValue, p: int)
    requires 0 <= p < len + count
    ensures BlockSplit([Range(0, len, v)], count) == [Range(0, len + count, v)]
    ensures ValueAt(BlockSplit([Range(0, len, v)], count), p) == v
  {
    assert BlockSplit([Range(0, len, v)], count) == [Range(0, len + count, v)];
  }

  /** After `split`, positions before `index` keep their format (inside the
      slot), the `distance` inserted positions have none, and later
      positions show what stood `distance` positions earlier. */
  lemma SplitValueAt(rs: seq<Range>, index: nat, distance: nat, slotLength: nat, p: int)
    ensures ValueAt(SplitEntry(rs, index, distance, slotLength), p)
         == if p < index then (if 0 <= p < slotLength then ValueAt(rs, p) else None)
            else if p < index + distance then None
            else (if p - distance < slotLength then ValueAt(rs, p - distance) else None)
  {
    var tile := Tile(rs, slotLength);
    var ins := InsertVoids(tile, index, distance);
    var at := Min(index, |tile|);
    RunsValueAt(ins, p);
    if 0 <= p < |tile| {
      assert tile[p] == ValueAt(rs, p);
    }
    if p >= |tile| && p < slotLength {
      ValueAtBeyondMaxEnd(rs, p);
    }
    if p - distance >= |tile| && p - distance < slotLength {
      ValueAtBeyondMaxEnd(rs, p - distance);
    }
    if 0 <= p < |ins| {
      if p < at {
        assert ins[p] == tile[p];
      } else if p < at + distance {
        assert ins[p] == None;
      } else {
        assert ins[p] == tile[p - distance];
      }
    }
  }

  /** `split` leaves an inline list canonical in the grown slot, and no
      range reaches into the inserted gap. */
  lemma SplitEntryCanonical(rs: seq<Range>, index: nat, distance: nat, slotLength: nat)
    ensures Canonical(SplitEntry(rs, index, distance, slotLength), slotLength + distance)
    ensures forall k, p :: 0 <= k < |SplitEntry(rs, index, distance, slotLength)| && index <= p < index + distance
              ==> !Covers(SplitEntry(rs, index, distance, slotLength)[k], p)
  {
    var out := SplitEntry(rs, index, distance, slotLength);
    RunsCanonical(InsertVoids(Tile(rs, slotLength), index, distance));
    forall k, p | 0 <= k < |out| && index <= p < index + distance
      ensures !Covers(out[k], p)
    {
      SplitValueAt(rs, index, distance, slotLength, p);
      CoveredHasValue(out, p);
    }
  }

  /** An inline list after `split` is in normal form. */
  lemma SplitEntryNormalized(rs: seq<Range>, index: nat, distance: nat, slotLength: nat)
    ensures Normalized(SplitEntry(rs, index, distance, slotLength))
  {
    SplitEntryCanonical(rs, index, distance, slotLength);
    CanonicalNormalized(SplitEntry(rs, index, distance, slotLength), slotLength + distance);
  }

  // ---------------------------------------------------------------------
  // extract / createFormatByRange

  /** `extractFormatRangesByFormatter`: each range meeting [startIndex,
      endIndex] clipped to it, kept when the clipped part is non-empty. */
  function ExtractRanges(rs: seq<Range>, startIndex: nat, endIndex: nat): seq<Range>
  {
    if rs == [] then []
    else
      var prev := ExtractRanges(rs[..|rs| - 1], startIndex, endIndex);
      var r := rs[|rs| - 1];
      if r.start > endIndex || r.end < startIndex then prev
      else
        var s := Max(r.start, startIndex);
        var n := Min(r.end, endIndex);
        if s < n then prev + [Range(s, n, r.value)] else prev
  }

  /** Extraction is restriction: inside [startIndex, endIndex) every
      position keeps its value, outside it nothing is left. */
  lemma {:induction false} ExtractValueAt(rs: seq<Range>, startIndex: nat, endIndex: nat, p: int)
    ensures ValueAt(ExtractRanges(rs, startIndex, endIndex), p)
         == if startIndex <= p < endIndex then ValueAt(rs, p) else None
  {
    if rs != [] {
      var m := |rs| - 1;
      var prev := ExtractRanges(rs[..m], startIndex, endIndex);
      ExtractValueAt(rs[..m], startIndex, endIndex, p);
      var out := ExtractRanges(rs, startIndex, endIndex);
      if out != prev {
        assert out[..|out| - 1] == prev;
      }
    }
  }

  /** Every extracted range is non-empty, lies in [startIndex, endIndex] and
      inside a source range whose value it keeps. */
  lemma {:induction false} ExtractBounds(rs: seq<Range>, startIndex: nat, endIndex: nat)
    ensures forall k :: 0 <= k < |ExtractRanges(rs, startIndex, endIndex)| ==>
              var x := ExtractRanges(rs, startIndex, endIndex)[k];
              && startIndex <= x.start < x.end <= endIndex
              && exists j :: 0 <= j < |rs| && rs[j].start <= x.start && x.end <= rs[j].end && rs[j].value == x.value
  {
    if rs != [] {
      var m := |rs| - 1;
      ExtractBounds(rs[..m], startIndex, endIndex);
      var prev := ExtractRanges(rs[..m], startIndex, endIndex);
      var out := ExtractRanges(rs, startIndex, endIndex);
      forall k | 0 <= k < |out|
        ensures startIndex <= out[k].start < out[k].end <= endIndex
        ensures exists j :: 0 <= j < |rs| && rs[j].start <= out[k].start && out[k].end <= rs[j].end && rs[j].value == out[k].value
      {
        if k < |prev| {
          assert out[k] == prev[k];
          var j :| 0 <= j < m && rs[..m][j].start <= prev[k].start && prev[k].end <= rs[..m][j].end && rs[..m][j].value == prev[k].value;
          assert rs[j] == rs[..m][j];
        } else {
          assert rs[m].start <= out[k].start && out[k].end <= rs[m].end && rs[m].value == out[k].value;
        }
      }
    }
  }

  lemma AppendCanonical(prev: seq<Range>, x: Range, n: int)
    requires Canonical(prev, n)
    requires x.start < x.end <= n && x.value.Some?
    requires forall j :: 0 <= j < |prev| ==> prev[j].end <= x.start
    requires forall j :: 0 <= j < |prev| && prev[j].end == x.start ==> !ValueEqual(prev[j].value, x.value)
    ensures Canonical(prev + [x], n)
  {
    var rs := prev + [x];
    assert forall k :: 0 <= k < |prev| ==> rs[k] == prev[k];
  }

  /** The clipped copy of a canonical list's last range sits after, and
      differs from, every clipped range before it that it touches. */
  lemma ExtractLastFits(rs: seq<Range>, n: int, startIndex: nat, endIndex: nat, prev: seq<Range>, x: Range)
    requires Canonical(rs, n) && rs != []
    requires prev == ExtractRanges(rs[..|rs| - 1], startIndex, endIndex)
    requires rs[|rs| - 1].start <= x.start && x.end <= rs[|rs| - 1].end && x.value == rs[|rs| - 1].value
    ensures forall j :: 0 <= j < |prev| ==> prev[j].end <= x.start
    ensures forall j :: 0 <= j < |prev| && prev[j].end == x.start ==> !ValueEqual(prev[j].value, x.value)
  {
    var m := |rs| - 1;
    ExtractBounds(rs[..m], startIndex, endIndex);
    forall j | 0 <= j < |prev|
      ensures prev[j].end <= x.start && (prev[j].end == x.start ==> !ValueEqual(prev[j].value, x.value))
    {
      var i :| 0 <= i < m && rs[..m][i].start <= prev[j].start && prev[j].end <= rs[..m][i].end && rs[..m][i].value == prev[j].value;
      assert rs[i].end <= rs[m].start;
      if prev[j].end == x.start {
        assert rs[i].end == rs[m].start;
      }
    }
  }

  /** Extraction keeps a canonical list canonical. */
  lemma {:induction false} ExtractKeepsCanonical(rs: seq<Range>, n: int, startIndex: nat, endIndex: nat)
    requires Canonical(rs, n)
    ensures Canonical(ExtractRanges(rs, startIndex, endIndex), n)
  {
    if rs != [] {
      var m := |rs| - 1;
      assert Canonical(rs[..m], n);
      ExtractKeepsCanonical(rs[..m], n, startIndex, endIndex);
      var prev := ExtractRanges(rs[..m], startIndex, endIndex);
      var out := ExtractRanges(rs, startIndex, endIndex);
      if out != prev {
        var x := out[|out| - 1];
        assert out == prev + [x];
        ExtractLastFits(rs, n, startIndex, endIndex, prev, x);
        AppendCanonical(prev, x, n);
      }
    }
  }

  /** Extraction never yields more ranges than it started with. */
  lemma {:induction false} ExtractLen(rs: seq<Range>, startIndex: nat, endIndex: nat)
    ensures |ExtractRanges(rs, startIndex, endIndex)| <= |rs|
  {
    if rs != [] {
      ExtractLen(rs[..|rs| - 1], startIndex, endIndex);
    }
  }

  /** The clipped ranges of one formatter, for every formatter that keeps
      at least one: the map `extract` builds. */
  function ExtractMap(m: map<Formatter, seq<Range>>, startIndex: nat, endIndex: nat): map<Formatter, seq<Range>>
  {
    map f | f in m && ExtractRanges(m[f], startIndex, endIndex) != [] :: ExtractRanges(m[f], startIndex, endIndex)
  }

  /** `createFormatByRange`'s rebasing: every extracted range moved back by
      `startIndex`. */
  function Rebased(rs: seq<Range>, startIndex: nat, endIndex: nat): seq<Range>
  {
    var xs := ExtractRanges(rs, startIndex, endIndex);
    ExtractBounds(rs, startIndex, endIndex);
    seq(|xs|, k requires 0 <= k < |xs| => Range(xs[k].start - startIndex, xs[k].end - startIndex, xs[k].value))
  }

  /** `createFormatByRange`'s map: every formatter with something left in
      the window, its ranges rebased. */
  function RebasedMap(m: map<Formatter, seq<Range>>, startIndex: nat, endIndex: nat): map<Formatter, seq<Range>>
  {
    map f | f in m && ExtractRanges(m[f], startIndex, endIndex) != [] :: Rebased(m[f], startIndex, endIndex)
  }

  /** The rebased list shows at `p` what the source showed at
      `p + startIndex`, for every `p` inside the extracted window. */
  lemma {:induction false} RebasedValueAt(rs: seq<Range>, startIndex: nat, endIndex: nat, p: int)
    ensures ValueAt(Rebased(rs, startIndex, endIndex), p)
         == if 0 <= p && p + startIndex < endIndex then ValueAt(rs, p + startIndex) else None
  {
    ExtractBounds(rs, startIndex, endIndex);
    ShiftValueAt(ExtractRanges(rs, startIndex, endIndex), startIndex, p);
    ExtractValueAt(rs, startIndex, endIndex, p + startIndex);
  }

  lemma {:induction false} ShiftValueAt(xs: seq<Range>, d: nat, p: int)
    requires forall k :: 0 <= k < |xs| ==> xs[k].start >= d && xs[k].end >= d
    ensures ValueAt(seq(|xs|, k requires 0 <= k < |xs| => Range(xs[k].start - d, xs[k].end - d, xs[k].value)), p)
         == ValueAt(xs, p + d)
  {
    var ys := seq(|xs|, k requires 0 <= k < |xs| => Range(xs[k].start - d, xs[k].end - d, xs[k].value));
    if xs != [] {
      var m := |xs| - 1;
      assert ys[..m] == seq(m, k requires 0 <= k < m => Range(xs[..m][k].start - d, xs[..m][k].end - d, xs[..m][k].value));
      ShiftValueAt(xs[..m], d, p);
    }
  }

  /** Moving the clipped ranges of a canonical list back by `startIndex`
      keeps them canonical, and keeps their number. */
  lemma RebasedKeepsCanonical(rs: seq<Range>, n: int, startIndex: nat, endIndex: nat)
    requires Canonical(rs, n)
    ensures Canonical(Rebased(rs, startIndex, endIndex), n)
    ensures |Rebased(rs, startIndex, endIndex)| == |ExtractRanges(rs, startIndex, endIndex)|
  {
    ExtractKeepsCanonical(rs, n, startIndex, endIndex);
    ExtractBounds(rs, startIndex, endIndex);
  }

  // ---------------------------------------------------------------------
  // extractFormatsByIndex

  /** The range is reported for a caret at `index`: at 0 when it starts at
      0, elsewhere when it starts before `index` and reaches it. */
  predicate ActiveAt(r: Range, index: nat)
  {
    if index == 0 then r.start == 0 else r.start < index <= r.end
  }

  /** The values `extractFormatsByIndex` reports for one formatter, in
      list order. */
  function ActiveValues(rs: seq<Range>, index: nat): seq<FormatValue>
  {
    if rs == [] then []
    else ActiveValues(rs[..|rs| - 1], index) + (if ActiveAt(rs[|rs| - 1], index) then [rs[|rs| - 1].value] else [])
  }

  /** The position whose format a caret at `index` picks up: the one before
      it, or the first one at the start of the slot. */
  function Anchor(index: nat): nat
  {
    if index == 0 then 0 else index - 1
  }

  /** On a canonical list a caret reports at most one value per formatter:
      the value of the position before it (of position 0 at the start). */
  lemma {:induction false} ActiveAtCaret(rs: seq<Range>, n: int, index: nat)
    requires Canonical(rs, n)
    ensures ActiveValues(rs, index)
         == if ValueAt(rs, Anchor(index)).Some? then [ValueAt(rs, Anchor(index))] else []
  {
    if rs != [] {
      var m := |rs| - 1;
      assert rs == rs[..m] + [rs[m]];
      CanonicalPrefix(rs[..m], rs[m], n);
      ActiveAtCaret(rs[..m], n, index);
      assert ActiveAt(rs[m], index) <==> Covers(rs[m], Anchor(index));
      if Covers(rs[m], Anchor(index)) {
        PrefixEndsBefore(rs[..m], rs[m], n, Anchor(index));
      }
    }
  }

  // ---------------------------------------------------------------------
  // toGrid

  /** Every start and end of a list. */
  function EndPoints(rs: seq<Range>): set<int>
  {
    (set k | 0 <= k < |rs| :: rs[k].start as int) + (set k | 0 <= k < |rs| :: rs[k].end as int)
  }

  /** The cut points `toGrid` collects: 0, the slot length and every start
      and end of every formatter. */
  function GridPoints(m: map<Formatter, seq<Range>>, slotLength: nat): set<int>
  {
    {0, slotLength as int} + (set f, x | f in m && x in EndPoints(m[f]) :: x)
  }

  lemma GridPointsAdd(m: map<Formatter, seq<Range>>, f: Formatter, rs: seq<Range>, slotLength: nat)
    requires f !in m
    ensures GridPoints(m[f := rs], slotLength) == GridPoints(m, slotLength) + EndPoints(rs)
  {
    var m' := m[f := rs];
    forall x | x in EndPoints(rs) ensures x in GridPoints(m', slotLength) {
      assert f in m' && x in EndPoints(m'[f]);
    }
    forall x | x in GridPoints(m, slotLength) ensures x in GridPoints(m', slotLength) {
      if x != 0 && x != slotLength {
        var g :| g in m && x in EndPoints(m[g]);
        assert g in m' && x in EndPoints(m'[g]);
      }
    }
  }

  /** Between two cut points nothing changes: a position shows what the cut
      point at or before it shows, when no cut point lies between them. */
  lemma {:induction false} GridCellUniform(rs: seq<Range>, points: set<int>, a: int, p: int)
    requires forall k :: 0 <= k < |rs| ==> rs[k].start as int in points && rs[k].end as int in points
    requires a <= p
    requires forall q :: a < q <= p ==> q !in points
    ensures ValueAt(rs, p) == ValueAt(rs, a)
  {
    if rs != [] {
      var m := |rs| - 1;
      assert rs[m].start as int in points && rs[m].end as int in points;
      assert Covers(rs[m], p) <==> Covers(rs[m], a);
      GridCellUniform(rs[..m], points, a, p);
    }
  }
}
