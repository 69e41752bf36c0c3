/**
 * Ranges over one slot and the normalisation at the heart of `Format`
 * (packages/core/src/model/format.ts:381-438): `tileRanges` paints a list
 * of possibly overlapping ranges into one value per position, and
 * `toRanges` groups runs of equal non-void values back into ranges.
 */
module RangeAlgebra {
  import opened Wrappers
  import opened FormatValues

  /** A `FormatRange`: the positions [start, end) carry `value`. */
  datatype Range = Range(start: nat, end: nat, value: FormatValue)

  predicate Covers(r: Range, p: int)
  {
    r.start <= p < r.end
  }

  /** Some range of the list covers position `p`. */
  predicate Covered(rs: seq<Range>, p: int)
  {
    exists k :: 0 <= k < |rs| && Covers(rs[k], p)
  }

  function Max(a: nat, b: nat): nat
  {
    if a < b then b else a
  }

  function Min(a: nat, b: nat): nat
  {
    if a < b then a else b
  }

  /** The value position `p` receives when the ranges are painted in list
      order, each over the ones before it: void where no range reaches. */
  function ValueAt(rs: seq<Range>, p: int): FormatValue
  {
    if rs == [] then None
    else if Covers(rs[|rs| - 1], p) then rs[|rs| - 1].value
    else ValueAt(rs[..|rs| - 1], p)
  }

  /** The furthest end of the list (0 for no range). */
  function MaxEnd(rs: seq<Range>): nat
  {
    if rs == [] then 0 else Max(MaxEnd(rs[..|rs| - 1]), rs[|rs| - 1].end)
  }

  /** The dense array `tileRanges` returns: one entry per position up to
      the furthest end, cut to the slot length. */
  function Tile(rs: seq<Range>, slotLength: nat): seq<FormatValue>
  {
    seq(Min(MaxEnd(rs), slotLength), p => ValueAt(rs, p))
  }

  /** The range `toRanges` has open at position `i` (the last one pushed,
      ending at `i`) holds a value equal to `item`, so `item` extends it. */
  predicate Continues(prev: seq<Range>, i: nat, item: FormatValue)
  {
    prev != [] && prev[|prev| - 1].end == i && ValueEqual(prev[|prev| - 1].value, item)
  }

  /** What `toRanges` has built after scanning `values`: a void entry closes
      the open range, an entry equal to the open range's value extends it,
      any other entry opens a new one-position range. */
  function Runs(values: seq<FormatValue>): seq<Range>
  {
    if values == [] then []
    else
      var i := |values| - 1;
      var prev := Runs(values[..i]);
      if values[i].None? then prev
      else if Continues(prev, i, values[i]) then prev[..|prev| - 1] + [prev[|prev| - 1].(end := i + 1)]
      else prev + [Range(i, i + 1, values[i])]
  }

  /** The canonical form of one formatter's ranges over a slot of length `n`:
      every range non-empty, inside the slot and non-void; the ranges sorted
      and pairwise disjoint; and two ranges that touch hold unequal values. */
  predicate Canonical(rs: seq<Range>, n: int)
  {
    && (forall k :: 0 <= k < |rs| ==> rs[k].start < rs[k].end <= n && rs[k].value.Some?)
    && (forall j, k :: 0 <= j < k < |rs| ==> rs[j].end <= rs[k].start)
    && (forall j, k :: 0 <= j < k < |rs| && rs[j].end == rs[k].start ==> !ValueEqual(rs[j].value, rs[k].value))
  }

  /** The list `normalizeFormatRange` tiles: the new range, when there is
      one, goes last (it wins) or, in background mode, first (it loses). */
  function Candidates(background: bool, oldRanges: seq<Range>, newRange: Option<Range>): seq<Range>
  {
    match newRange
    case None => oldRanges
    case Some(r) => if background then [r] + oldRanges else oldRanges + [r]
  }

  /** `normalizeFormatRange`: tile the candidates, then re-range them. */
  function Normalize(background: bool, oldRanges: seq<Range>, newRange: Option<Range>, slotLength: nat): seq<Range>
  {
    Runs(Tile(Candidates(background, oldRanges, newRange), slotLength))
  }

  // ---------------------------------------------------------------------
  // ValueAt is "the last range covering the position"

  lemma {:induction false} ValueAtUncovered(rs: seq<Range>, p: int)
    requires !Covered(rs, p)
    ensures ValueAt(rs, p) == None
  {
    if rs != [] {
      var m := |rs| - 1;
      ValueAtUncovered(rs[..m], p);
    }
  }

  lemma {:induction false} ValueAtLastCover(rs: seq<Range>, p: int, k: nat)
    requires k < |rs| && Covers(rs[k], p)
    requires forall j :: k < j < |rs| ==> !Covers(rs[j], p)
    ensures ValueAt(rs, p) == rs[k].value
  {
    var m := |rs| - 1;
    if k < m {
      ValueAtLastCover(rs[..m], p, k);
    }
  }

  lemma {:induction false} ValueAtBeyondMaxEnd(rs: seq<Range>, p: int)
    requires p >= MaxEnd(rs)
    ensures ValueAt(rs, p) == None
  {
    if rs != [] {
      ValueAtBeyondMaxEnd(rs[..|rs| - 1], p);
    }
  }

  /** Under a list whose ranges all carry a value, a covered position has a
      value. */
  lemma {:induction false} CoveredHasValue(rs: seq<Range>, p: int)
    requires forall k :: 0 <= k < |rs| ==> rs[k].value.Some?
    ensures Covered(rs, p) <==> ValueAt(rs, p).Some?
  {
    if rs == [] {
    } else {
      var m := |rs| - 1;
      CoveredHasValue(rs[..m], p);
      if Covered(rs, p) && !Covers(rs[m], p) {
        var k :| 0 <= k < |rs| && Covers(rs[k], p);
        assert Covers(rs[..m][k], p);
      }
      if Covered(rs[..m], p) {
        var k :| 0 <= k < m && Covers(rs[..m][k], p);
        assert Covers(rs[k], p);
      }
    }
  }

  // ---------------------------------------------------------------------
  // toRanges: canonical output that re-expands to its input

  /** Extending the open range keeps the canonical form. */
  lemma ExtendCanonical(prev: seq<Range>, i: nat, item: FormatValue)
    requires Canonical(prev, i) && Continues(prev, i, item)
    ensures Canonical(prev[..|prev| - 1] + [prev[|prev| - 1].(end := i + 1)], i + 1)
  {
    var m := |prev| - 1;
    var rs := prev[..m] + [prev[m].(end := i + 1)];
    assert forall k :: 0 <= k < m ==> rs[k] == prev[k];
    assert rs[m].start == prev[m].start && rs[m].value == prev[m].value;
  }

  /** Opening a new range after the last one keeps the canonical form. */
  lemma PushCanonical(prev: seq<Range>, i: nat, item: FormatValue)
    requires Canonical(prev, i) && item.Some? && !Continues(prev, i, item)
    ensures Canonical(prev + [Range(i, i + 1, item)], i + 1)
  {
    // only the last range of `prev` can touch the new one
    forall j | 0 <= j < |prev| - 1
      ensures prev[j].end < i
    {
      assert prev[j].end <= prev[|prev| - 1].start;
    }
  }

  lemma {:induction false} RunsCanonical(values: seq<FormatValue>)
    ensures Canonical(Runs(values), |values|)
    ensures |Runs(values)| <= |values|
  {
    if values != [] {
      var i := |values| - 1;
      var prev := Runs(values[..i]);
      RunsCanonical(values[..i]);
      if values[i].None? {
      } else if Continues(prev, i, values[i]) {
        ExtendCanonical(prev, i, values[i]);
      } else {
        PushCanonical(prev, i, values[i]);
      }
    }
  }

  /** One step of `toRanges`: what scanning position `i` does to the ranges
      built so far, which all end by `i`. */
  lemma RunsStep(values: seq<FormatValue>, i: nat)
    requires i < |values|
    ensures var prev := Runs(values[..i]);
            && (forall k :: 0 <= k < |prev| ==> prev[k].end <= i)
            && Runs(values[..i + 1])
               == if values[i].None? then prev
                  else if Continues(prev, i, values[i]) then prev[..|prev| - 1] + [prev[|prev| - 1].(end := i + 1)]
                  else prev + [Range(i, i + 1, values[i])]
  {
    assert values[..i + 1][..i] == values[..i];
    RunsCanonical(values[..i]);
  }

  /** `toRanges` loses nothing: the ranges it builds give every position
      of the input array back, and nothing beyond it. */
  lemma {:induction false} RunsValueAt(values: seq<FormatValue>, p: int)
    ensures ValueAt(Runs(values), p) == if 0 <= p < |values| then values[p] else None
  {
    if values != [] {
      var i := |values| - 1;
      var prev := Runs(values[..i]);
      RunsValueAt(values[..i], p);
      RunsCanonical(values[..i]);
      if values[i].None? {
      } else if Continues(prev, i, values[i]) {
        var m := |prev| - 1;
        var last := prev[m].(end := i + 1);
        var rs := prev[..m] + [last];
        assert Runs(values) == rs;
        assert rs[..|rs| - 1] == prev[..m];
        if Covers(last, p) {
          if p == i {
            EqualIsStructural(prev[m].value.value, values[i].value);
          } else {
            assert Covers(prev[m], p);
          }
        } else {
          assert !Covers(prev[m], p);
        }
      } else {
        var rs := prev + [Range(i, i + 1, values[i])];
        assert Runs(values) == rs;
        assert rs[..|rs| - 1] == prev;
      }
    }
  }

  // ---------------------------------------------------------------------
  // normalizeFormatRange

  /** Normalisation yields the canonical form inside the slot, with at
      most one range per position of the slot. */
  lemma NormalizeCanonical(background: bool, oldRanges: seq<Range>, newRange: Option<Range>, slotLength: nat)
    ensures Canonical(Normalize(background, oldRanges, newRange, slotLength), slotLength)
    ensures |Normalize(background, oldRanges, newRange, slotLength)| <= slotLength
  {
    RunsCanonical(Tile(Candidates(background, oldRanges, newRange), slotLength));
  }

  /** Normalisation keeps what every position of the slot shows and clears
      everything past the slot's end. */
  lemma NormalizeValueAt(background: bool, oldRanges: seq<Range>, newRange: Option<Range>, slotLength: nat, p: int)
    ensures ValueAt(Normalize(background, oldRanges, newRange, slotLength), p)
         == if 0 <= p < slotLength then ValueAt(Candidates(background, oldRanges, newRange), p) else None
  {
    var cands := Candidates(background, oldRanges, newRange);
    RunsValueAt(Tile(cands, slotLength), p);
    if 0 <= p < slotLength && p >= MaxEnd(cands) {
      ValueAtBeyondMaxEnd(cands, p);
    }
  }

  /** A range painted first shows only where no later range reaches. */
  lemma {:induction false} ValueAtUnder(r: Range, rs: seq<Range>, p: int)
    ensures ValueAt([r] + rs, p)
         == if Covered(rs, p) then ValueAt(rs, p) else if Covers(r, p) then r.value else None
  {
    if rs == [] {
      assert [r] + rs == [r];
    } else {
      var m := |rs| - 1;
      assert ([r] + rs)[..|rs|] == [r] + rs[..m];
      ValueAtUnder(r, rs[..m], p);
      if Covered(rs[..m], p) {
        var k :| 0 <= k < m && Covers(rs[..m][k], p);
        assert Covers(rs[k], p);
      }
      if Covered(rs, p) && !Covers(rs[m], p) {
        var k :| 0 <= k < |rs| && Covers(rs[k], p);
        assert Covers(rs[..m][k], p);
      }
    }
  }

  /** What an inline `merge` over an existing entry leaves at each position:
      inside the slot, the new range's value wins where it reaches, unless
      in background mode, where it only fills positions no existing range
      reaches; past the slot nothing is left. */
  lemma MergeValueAt(background: bool, oldRanges: seq<Range>, r: Range, slotLength: nat, p: int)
    ensures ValueAt(Normalize(background, oldRanges, Some(r), slotLength), p)
         == if !(0 <= p < slotLength) then None
            else if background then
              (if Covered(oldRanges, p) then ValueAt(oldRanges, p) else if Covers(r, p) then r.value else None)
            else
              (if Covers(r, p) then r.value else ValueAt(oldRanges, p))
  {
    NormalizeValueAt(background, oldRanges, Some(r), slotLength, p);
    if background {
      ValueAtUnder(r, oldRanges, p);
    } else {
      assert (oldRanges + [r])[..|oldRanges|] == oldRanges;
    }
  }

  // ---------------------------------------------------------------------
  // A canonical list is determined by what it shows

  /** In a canonical list, the ranges before the last one `x` show nothing
      from `x`'s start on. */
  lemma PrefixEndsBefore(pre: seq<Range>, x: Range, n: int, p: int)
    requires Canonical(pre + [x], n) && p >= x.start
    ensures ValueAt(pre, p) == None
  {
    var rs := pre + [x];
    forall k | 0 <= k < |pre|
      ensures !Covers(pre[k], p)
    {
      assert rs[k].end <= rs[|pre|].start;
    }
    ValueAtUncovered(pre, p);
  }

  /** In a canonical list, the position just before the last range `x`
      shows something other than `x`'s value. */
  lemma DifferentBefore(pre: seq<Range>, x: Range, n: int)
    requires Canonical(pre + [x], n) && x.start > 0
    ensures ValueAt(pre, x.start - 1) != x.value
  {
    var rs := pre + [x];
    var m := |pre|;
    var q := x.start - 1;
    assert rs[m] == x;
    if m > 0 {
      // only the range just before `x` can reach position `q`
      assert rs[m - 1] == pre[m - 1] && rs[m - 1].end <= rs[m].start;
      if Covers(pre[m - 1], q) {
        assert rs[m - 1].end == rs[m].start;
      } else {
        forall j | 0 <= j < m
          ensures !Covers(pre[j], q)
        {
          if j < m - 1 {
            assert rs[j].end <= rs[m - 1].start;
          }
        }
        ValueAtUncovered(pre, q);
      }
    }
  }

  /** What the last range `x` of a canonical list shows: its value on its
      own positions, nothing after it, and a different value (or nothing)
      just before it; the ranges before it show nothing from its start on. */
  lemma LastRangeShows(pre: seq<Range>, x: Range, n: int)
    requires Canonical(pre + [x], n)
    ensures forall p :: x.start <= p < x.end ==> ValueAt(pre + [x], p) == x.value
    ensures forall p :: p >= x.end ==> ValueAt(pre + [x], p) == None
    ensures x.start == 0 || ValueAt(pre + [x], x.start - 1) != x.value
    ensures forall p :: p >= x.start ==> ValueAt(pre, p) == None
    ensures forall p :: p < x.start ==> ValueAt(pre + [x], p) == ValueAt(pre, p)
  {
    assert (pre + [x])[..|pre|] == pre;
    forall p | p >= x.start
      ensures ValueAt(pre, p) == None
    {
      PrefixEndsBefore(pre, x, n, p);
    }
    if x.start > 0 {
      DifferentBefore(pre, x, n);
    }
  }

  /** Dropping the last range keeps a list canonical. */
  lemma CanonicalPrefix(pre: seq<Range>, x: Range, n: int)
    requires Canonical(pre + [x], n)
    ensures Canonical(pre, n)
  {
    assert forall k :: 0 <= k < |pre| ==> pre[k] == (pre + [x])[k];
  }

  /** A canonical list shows nothing anywhere only when it is empty. */
  lemma CanonicalShowsSomething(rs: seq<Range>, n: int)
    requires Canonical(rs, n) && rs != []
    ensures ValueAt(rs, rs[|rs| - 1].start).Some?
  {
    assert Covers(rs[|rs| - 1], rs[|rs| - 1].start);
  }

  /** Two canonical lists that show the same values end with the same range. */
  lemma SameLastRange(a: seq<Range>, x: Range, b: seq<Range>, y: Range, n: int)
    requires Canonical(a + [x], n) && Canonical(b + [y], n)
    requires forall p :: ValueAt(a + [x], p) == ValueAt(b + [y], p)
    ensures x == y
  {
    assert (a + [x])[|a|] == x;
    assert (b + [y])[|b|] == y;
    LastRangeShows(a, x, n);
    LastRangeShows(b, y, n);
    assert x.end == y.end by {
      assert ValueAt(a + [x], x.end - 1) == x.value;
      assert ValueAt(b + [y], y.end - 1) == y.value;
    }
    assert x.value == y.value by {
      assert ValueAt(a + [x], x.end - 1) == x.value;
      assert ValueAt(b + [y], x.end - 1) == y.value;
    }
    assert x.start == y.start by {
      assert ValueAt(a + [x], x.start) == x.value;
      assert ValueAt(b + [y], y.start) == y.value;
    }
  }

  /** Two canonical lists that show the same values and end with the same
      range show the same values without it. */
  lemma SamePrefixValues(a: seq<Range>, b: seq<Range>, x: Range, n: int, p: int)
    requires Canonical(a + [x], n) && Canonical(b + [x], n)
    requires forall q :: ValueAt(a + [x], q) == ValueAt(b + [x], q)
    ensures ValueAt(a, p) == ValueAt(b, p)
  {
    if p < x.start {
      assert (a + [x])[..|a|] == a;
      assert (b + [x])[..|b|] == b;
      assert ValueAt(a + [x], p) == ValueAt(b + [x], p);
    } else {
      PrefixEndsBefore(a, x, n, p);
      PrefixEndsBefore(b, x, n, p);
    }
  }

  /** Two canonical lists that show the same value at every position are
      the same list. */
  lemma {:induction false} CanonicalUnique(a: seq<Range>, b: seq<Range>, n: int)
    requires Canonical(a, n) && Canonical(b, n)
    requires forall p :: ValueAt(a, p) == ValueAt(b, p)
    ensures a == b
    decreases |a| + |b|
  {
    if a != [] {
      CanonicalShowsSomething(a, n);
    }
    if b != [] {
      CanonicalShowsSomething(b, n);
    }
    if a != [] && b != [] {
      var a', x := a[..|a| - 1], a[|a| - 1];
      var b', y := b[..|b| - 1], b[|b| - 1];
      assert a == a' + [x];
      assert b == b' + [y];
      SameLastRange(a', x, b', y, n);
      CanonicalPrefix(a', x, n);
      CanonicalPrefix(b', y, n);
      forall p
        ensures ValueAt(a', p) == ValueAt(b', p)
      {
        SamePrefixValues(a', b', x, n, p);
      }
      CanonicalUnique(a', b', n);
    }
  }

  /** Normalising a list that is already canonical for the slot gives it back. */
  lemma NormalizeCanonicalList(rs: seq<Range>, n: nat)
    requires Canonical(rs, n)
    ensures Normalize(false, rs, None, n) == rs
  {
    var normal := Normalize(false, rs, None, n);
    NormalizeCanonical(false, rs, None, n);
    forall p
      ensures ValueAt(normal, p) == ValueAt(rs, p)
    {
      NormalizeValueAt(false, rs, None, n, p);
      if !(0 <= p < n) {
        ValueAtUncovered(rs, p);
      }
    }
    CanonicalUnique(normal, rs, n);
  }

  /** Normalising at most one range leaves at most one range: the part of
      it inside the slot, when that part is non-empty and has a value. */
  lemma NormalizeAtMostOne(rs: seq<Range>, n: nat)
    requires |rs| <= 1
    ensures |Normalize(false, rs, None, n)| <= 1
  {
    var normal := Normalize(false, rs, None, n);
    var cut: seq<Range> :=
      if rs != [] && rs[0].value.Some? && rs[0].start < Min(rs[0].end, n)
      then [Range(rs[0].start, Min(rs[0].end, n), rs[0].value)]
      else [];
    NormalizeCanonical(false, rs, None, n);
    forall p
      ensures ValueAt(normal, p) == ValueAt(cut, p)
    {
      NormalizeValueAt(false, rs, None, n, p);
      if rs != [] {
        assert ValueAt(rs, p) == if Covers(rs[0], p) then rs[0].value else None;
      }
    }
    CanonicalUnique(normal, cut, n);
  }

  /** Canonical over the extent of its own ranges: the form every entry of
      more than one range takes. */
  predicate Normalized(rs: seq<Range>)
  {
    Canonical(rs, MaxEnd(rs))
  }

  lemma {:induction false} EndsWithinMaxEnd(rs: seq<Range>)
    ensures forall k :: 0 <= k < |rs| ==> rs[k].end <= MaxEnd(rs)
  {
    if rs != [] {
      var m := |rs| - 1;
      EndsWithinMaxEnd(rs[..m]);
      assert forall k :: 0 <= k < m ==> rs[k] == rs[..m][k];
    }
  }

  /** A list canonical for some slot is normalized. */
  lemma CanonicalNormalized(rs: seq<Range>, n: int)
    requires Canonical(rs, n)
    ensures Normalized(rs)
  {
    EndsWithinMaxEnd(rs);
  }
}
