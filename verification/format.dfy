/**
 * The `Format` class of packages/core/src/model/format.ts: for every
 * formatter of one slot, the list of ranges that carry its values, kept
 * consistent while the slot is edited.
 */
module FormatModel {
  import opened Wrappers
  import opened FormatValues
  import opened RangeAlgebra
  import opened RangeEdits
  import opened FormatTrees

  /** The values a list of `[formatter, value]` pairs holds for `f`, in order. */
  function ValuesFor(pairs: seq<(Formatter, FormatValue)>, f: Formatter): seq<FormatValue>
  {
    if pairs == [] then []
    else ValuesFor(pairs[..|pairs| - 1], f) + (if pairs[|pairs| - 1].0 == f then [pairs[|pairs| - 1].1] else [])
  }

  /** The items of a flat list that belong to `f`, in order. */
  function ItemsFor(items: seq<FormatItem>, f: Formatter): seq<FormatItem>
  {
    if items == [] then []
    else ItemsFor(items[..|items| - 1], f) + (if items[|items| - 1].formatter == f then [items[|items| - 1]] else [])
  }

  /** One formatter's ranges as the items `toArray` lists. */
  function Tagged(f: Formatter, rs: seq<Range>): seq<FormatItem>
  {
    seq(|rs|, k requires 0 <= k < |rs| => FormatItem(f, rs[k].value, rs[k].start, rs[k].end))
  }

  /** `Set` plus a sort: the least element of a non-empty set of positions. */
  lemma LeastExists(s: set<int>) returns (least: int)
    requires s != {}
    ensures least in s && forall y :: y in s ==> least <= y
  {
    if forall z :: z !in s {
      assert false;
    }
    var x :| x in s;
    if forall y :: y in s ==> x <= y {
      least := x;
    } else {
      var smaller :| smaller in s && smaller < x;
      assert smaller in s - {x};
      least := LeastExists(s - {x});
      forall y | y in s ensures least <= y {
        if y != x {
          assert y in s - {x};
        }
      }
    }
  }

  /** What `discard` is for: inside [startIndex, endIndex) the normalised
      list is void, elsewhere in the slot it shows what the entry showed. */
  lemma DiscardClears(rs: seq<Range>, startIndex: nat, endIndex: nat, slotLength: nat, p: int)
    ensures ValueAt(Normalize(false, rs, Some(Range(startIndex, endIndex, None)), slotLength), p)
         == if 0 <= p < slotLength && !(startIndex <= p < endIndex) then ValueAt(rs, p) else None
  {
    MergeValueAt(false, rs, Range(startIndex, endIndex, None), slotLength, p);
  }

  /** `discard` as written keeps an entry that the normalisation it computes
      would have changed: clearing [1, 3) of a 4-long bold range. */
  lemma DiscardKeepsClearedRange(v: Value)
    ensures Normalize(false, [Range(0, 4, Some(v))], Some(Range(1, 3, None)), 4) != [Range(0, 4, Some(v))]
  {
    DiscardClears([Range(0, 4, Some(v))], 1, 3, 4, 1);
    assert ValueAt([Range(0, 4, Some(v))], 1) == Some(v);
  }

  /** What the edits keep of one entry: a list of two or more ranges is
      sorted, its ranges non-empty, disjoint and carrying values, with no
      two equal neighbours touching; only a single range (as the first
      inline merge stores it) or an empty list (as `split` may store it) is
      exempt. A block entry holds at most one range. */
  predicate EntryValid(f: Formatter, rs: seq<Range>)
  {
    (|rs| <= 1 || Normalized(rs)) && (f.isBlock ==> |rs| <= 1)
  }

  predicate EntriesValid(m: map<Formatter, seq<Range>>)
  {
    forall f :: f in m ==> EntryValid(f, m[f])
  }

  /** `stretch` keeps every entry valid. */
  lemma StretchKeepsValid(before: map<Formatter, seq<Range>>, after: map<Formatter, seq<Range>>, index: nat, count: nat)
    requires EntriesValid(before)
    requires forall f :: f in after ==> f in before && after[f] == StretchRanges(before[f], index, count)
    ensures EntriesValid(after)
  {
    forall f | f in after
      ensures EntryValid(f, after[f])
    {
      if |before[f]| > 1 {
        StretchKeepsNormalized(before[f], index, count);
      }
    }
  }

  /** The intended `stretch` keeps every entry valid. */
  lemma StretchIntendedKeepsValid(before: map<Formatter, seq<Range>>, after: map<Formatter, seq<Range>>, index: nat, count: nat)
    requires EntriesValid(before)
    requires forall f :: f in after ==>
               f in before && after[f] == if f.isBlock then BlockSplit(before[f], count) else StretchRanges(before[f], index, count)
    ensures EntriesValid(after)
  {
    forall f | f in after
      ensures EntryValid(f, after[f])
    {
      if !f.isBlock && |before[f]| > 1 {
        StretchKeepsNormalized(before[f], index, count);
      }
    }
  }

  /** `split` keeps every entry valid. */
  lemma SplitKeepsValid(before: map<Formatter, seq<Range>>, after: map<Formatter, seq<Range>>, index: nat, distance: nat, slotLength: nat)
    requires EntriesValid(before)
    requires forall f :: f in after ==>
               f in before && after[f] == if f.isBlock then BlockSplit(before[f], distance) else SplitEntry(before[f], index, distance, slotLength)
    ensures EntriesValid(after)
  {
    forall f | f in after
      ensures EntryValid(f, after[f])
    {
      if !f.isBlock {
        SplitEntryNormalized(before[f], index, distance, slotLength);
      }
    }
  }

  /** `shrink` keeps every entry valid, and leaves every entry canonical
      for the slot. */
  lemma ShrinkKeepsValid(before: map<Formatter, seq<Range>>, after: map<Formatter, seq<Range>>, startIndex: nat, count: nat, slotLength: nat)
    requires EntriesValid(before)
    requires forall f :: f in after ==> f in before && after[f] == ShrinkEntry(before[f], startIndex, count, slotLength)
    ensures EntriesValid(after)
    ensures forall f :: f in after ==> Canonical(after[f], slotLength)
  {
    forall f | f in after
      ensures EntryValid(f, after[f]) && Canonical(after[f], slotLength)
    {
      ShrinkEntryShape(before[f], startIndex, count, slotLength);
    }
  }

  /** `extract` keeps every entry valid. */
  lemma ExtractKeepsValid(m: map<Formatter, seq<Range>>, startIndex: nat, endIndex: nat)
    requires EntriesValid(m)
    ensures EntriesValid(ExtractMap(m, startIndex, endIndex))
  {
    var out := ExtractMap(m, startIndex, endIndex);
    forall f | f in out
      ensures EntryValid(f, out[f])
    {
      ExtractLen(m[f], startIndex, endIndex);
      if |m[f]| > 1 {
        ExtractKeepsCanonical(m[f], MaxEnd(m[f]), startIndex, endIndex);
        CanonicalNormalized(out[f], MaxEnd(m[f]));
      }
    }
  }

  /** `createFormatByRange` keeps every entry valid. */
  lemma RebaseKeepsValid(m: map<Formatter, seq<Range>>, startIndex: nat, endIndex: nat)
    requires EntriesValid(m)
    ensures EntriesValid(RebasedMap(m, startIndex, endIndex))
  {
    var out := RebasedMap(m, startIndex, endIndex);
    forall f | f in out
      ensures EntryValid(f, out[f])
    {
      ExtractLen(m[f], startIndex, endIndex);
      if |m[f]| > 1 {
        RebasedKeepsCanonical(m[f], MaxEnd(m[f]), startIndex, endIndex);
        CanonicalNormalized(out[f], MaxEnd(m[f]));
      }
    }
  }

  class Format {
    /** The formatter map. JavaScript's `Map` also remembers insertion order,
        which only orders query results; that order is not kept here. */
    var formats: map<Formatter, seq<Range>>
    /** The length of the owning slot. The slot's code is not part of this
        model; every edit here reads this field as the slot's length at the
        time of the call, and none changes it. */
    var slotLength: nat

    constructor (slotLength: nat)
      ensures formats == map[] && this.slotLength == slotLength
      ensures Valid()
    {
      formats := map[];
      this.slotLength := slotLength;
    }

    /** The formatter's list; an absent entry reads as the empty list. */
    function Entry(formatter: Formatter): seq<Range>
      reads this
    {
      if formatter in formats then formats[formatter] else []
    }

    /** The store invariant: every entry is valid (see `EntryValid`). */
    ghost predicate Valid()
      reads this
    {
      EntriesValid(formats)
    }

    // -------------------------------------------------------------------
    // merge

    /** `merge` for a block formatter: a void value deletes the entry; any
        other value becomes the one range spanning the slot, except in
        background mode over an existing entry, where the first value stays. */
    method MergeBlock(formatter: Formatter, value: FormatValue, background: bool)
      requires formatter.isBlock
      requires Valid()
      modifies this
      ensures Valid()
      ensures slotLength == old(slotLength)
      ensures IsVoid(value) ==> formats == old(formats) - {formatter}
      ensures (!IsVoid(value) && (!background || formatter !in old(formats)))
                ==> formats == old(formats)[formatter := [Range(0, slotLength, value)]]
      ensures !IsVoid(value) && background && formatter in old(formats) ==> formats == old(formats)
    {
      if IsVoid(value) {
        formats := formats - {formatter};
      } else if !background || formatter !in formats {
        formats := formats[formatter := [Range(0, slotLength, value)]];
      }
    }

    /** `merge` for an inline formatter. Into an absent entry a void range
        changes nothing and any other range is stored as given (neither
        clipped nor normalised). Over an existing entry the range is
        normalised in, and an empty result deletes the entry. */
    method MergeInline(formatter: Formatter, range: Range, background: bool)
      requires !formatter.isBlock
      requires Valid()
      modifies this
      ensures Valid()
      ensures slotLength == old(slotLength)
      ensures formatter !in old(formats) && IsVoid(range.value) ==> formats == old(formats)
      ensures formatter !in old(formats) && !IsVoid(range.value) ==> formats == old(formats)[formatter := [range]]
      ensures formatter in old(formats) ==>
                var merged := Normalize(background, old(formats)[formatter], Some(range), slotLength);
                formats == if merged != [] then old(formats)[formatter := merged] else old(formats) - {formatter}
      ensures formatter in old(formats) && formatter in formats ==> Canonical(formats[formatter], slotLength)
    {
      if formatter !in formats {
        if IsVoid(range.value) {
          return;
        }
        formats := formats[formatter := [range]];
        return;
      }
      var newRanges := NormalizeFormatRange(background, formats[formatter], Some(range));
      if newRanges != [] {
        CanonicalNormalized(newRanges, slotLength);
        formats := formats[formatter := newRanges];
      } else {
        formats := formats - {formatter};
      }
    }

    // -------------------------------------------------------------------
    // stretch, split, shrink

    /** `stretch(index, count)`: every range is moved as by `StretchRange`. */
    method Stretch(index: nat, count: nat)
      requires Valid()
      modifies this
      ensures Valid()
      ensures slotLength == old(slotLength)
      ensures formats.Keys == old(formats).Keys
      ensures forall f :: f in formats ==> formats[f] == StretchRanges(old(formats)[f], index, count)
    {
      var pending := formats.Keys;
      while pending != {}
        invariant pending <= old(formats).Keys && formats.Keys == old(formats).Keys
        invariant slotLength == old(slotLength)
        invariant forall f :: f in formats ==>
                    formats[f] == if f in pending then old(formats)[f] else StretchRanges(old(formats)[f], index, count)
        decreases pending
      {
        var f :| f in pending;
        var ranges := MoveForStretch(formats[f], index, count);
        formats := formats[f := ranges];
        pending := pending - {f};
      }
      StretchKeepsValid(old(formats), formats, index, count);
    }

    /** The moving pass of `stretch` over one formatter's list. */
    static method MoveForStretch(ranges0: seq<Range>, index: nat, count: nat) returns (ranges: seq<Range>)
      ensures ranges == StretchRanges(ranges0, index, count)
    {
      ranges := ranges0;
      for k := 0 to |ranges|
        invariant |ranges| == |ranges0|
        invariant forall j :: 0 <= j < k ==> ranges[j] == StretchRange(ranges0[j], index, count)
        invariant forall j :: k <= j < |ranges| ==> ranges[j] == ranges0[j]
      {
        var range := ranges[k];
        if range.end < index {
          continue;
        }
        range := range.(end := range.end + count);
        if range.start >= index {
          range := range.(start := range.start + count);
        }
        ranges := ranges[k := range];
      }
    }

    /** `stretch` as evidently intended: a block range, which spans the
        slot, grows only its end, as `split` grows it; inline ranges move as
        in `Stretch`. */
    method StretchIntended(index: nat, count: nat)
      requires Valid()
      modifies this
      ensures Valid()
      ensures slotLength == old(slotLength)
      ensures formats.Keys == old(formats).Keys
      ensures forall f :: f in formats ==>
                formats[f] == if f.isBlock then BlockSplit(old(formats)[f], count)
                              else StretchRanges(old(formats)[f], index, count)
    {
      var pending := formats.Keys;
      while pending != {}
        invariant pending <= old(formats).Keys && formats.Keys == old(formats).Keys
        invariant slotLength == old(slotLength)
        invariant forall f :: f in formats ==>
                    formats[f] == if f in pending then old(formats)[f]
                                  else if f.isBlock then BlockSplit(old(formats)[f], count)
                                  else StretchRanges(old(formats)[f], index, count)
        decreases pending
      {
        var f :| f in pending;
        var ranges := if f.isBlock then BlockSplit(formats[f], count) else StretchRanges(formats[f], index, count);
        formats := formats[f := ranges];
        pending := pending - {f};
      }
      StretchIntendedKeepsValid(old(formats), formats, index, count);
    }

    /** `split(index, distance)`: block ranges grow by `distance`; inline
        lists are tiled, opened up by `distance` void positions at `index`
        and re-ranged. The result is stored even when it is empty. */
    method Split(index: nat, distance: nat)
      requires Valid()
      modifies this
      ensures Valid()
      ensures slotLength == old(slotLength)
      ensures formats.Keys == old(formats).Keys
      ensures forall f :: f in formats ==>
                formats[f] == if f.isBlock then BlockSplit(old(formats)[f], distance)
                              else SplitEntry(old(formats)[f], index, distance, slotLength)
    {
      var expandedValues: seq<FormatValue> := seq(distance, _ => None);
      var pending := formats.Keys;
      while pending != {}
        invariant pending <= old(formats).Keys && formats.Keys == old(formats).Keys
        invariant slotLength == old(slotLength)
        invariant forall f :: f in formats ==>
                    formats[f] == if f in pending then old(formats)[f]
                                  else if f.isBlock then BlockSplit(old(formats)[f], distance)
                                  else SplitEntry(old(formats)[f], index, distance, slotLength)
        decreases pending
      {
        var f :| f in pending;
        var formatRanges := formats[f];
        if f.isBlock {
          formatRanges := GrowBlock(formatRanges, distance);
          formats := formats[f := formatRanges];
        } else {
          var newRanges := SplitInline(formatRanges, index, expandedValues);
          formats := formats[f := newRanges];
        }
        pending := pending - {f};
      }
      SplitKeepsValid(old(formats), formats, index, distance, slotLength);
    }

    /** The inline branch of `split` over one list: tiled, opened up by the
        void positions `expandedValues` at `index`, re-ranged. */
    method SplitInline(formatRanges: seq<Range>, index: nat, expandedValues: seq<FormatValue>)
      returns (newRanges: seq<Range>)
      requires forall k :: 0 <= k < |expandedValues| ==> expandedValues[k] == None
      ensures newRanges == SplitEntry(formatRanges, index, |expandedValues|, slotLength)
    {
      var values := TileRanges(formatRanges);
      assert values == Tile(formatRanges, slotLength);
      var at := if index <= |values| then index else |values|;
      ghost var widened := InsertVoids(values, index, |expandedValues|);
      values := values[..at] + expandedValues + values[at..];
      assert values == widened;
      newRanges := ToRanges(values);
    }

    /** The block branch of `split` over one list: every end moves by
        `distance`. */
    static method GrowBlock(ranges0: seq<Range>, distance: nat) returns (ranges: seq<Range>)
      ensures ranges == BlockSplit(ranges0, distance)
    {
      ranges := ranges0;
      for k := 0 to |ranges|
        invariant |ranges| == |ranges0|
        invariant forall j :: 0 <= j < k ==> ranges[j] == ranges0[j].(end := ranges0[j].end + distance)
        invariant forall j :: k <= j < |ranges| ==> ranges[j] == ranges0[j]
      {
        ranges := ranges[k := ranges[k].(end := ranges[k].end + distance)];
      }
    }

    /** `shrink(startIndex, count)`: every range is moved as by
        `ShrinkRange`, then every list is normalised and an empty one
        deleted, so afterwards every entry is canonical and non-empty. */
    method Shrink(startIndex: nat, count: nat)
      requires Valid()
      modifies this
      ensures Valid()
      ensures slotLength == old(slotLength)
      ensures forall f :: f in formats <==>
                f in old(formats) && ShrinkEntry(old(formats)[f], startIndex, count, slotLength) != []
      ensures forall f :: f in formats ==> formats[f] == ShrinkEntry(old(formats)[f], startIndex, count, slotLength)
      ensures forall f :: f in formats ==> formats[f] != [] && Canonical(formats[f], slotLength)
    {
      var pending := formats.Keys;
      while pending != {}
        invariant pending <= old(formats).Keys && formats.Keys == old(formats).Keys
        invariant slotLength == old(slotLength)
        invariant forall f :: f in formats ==>
                    formats[f] == if f in pending then old(formats)[f] else ShrinkRanges(old(formats)[f], startIndex, count)
        decreases pending
      {
        var f :| f in pending;
        var ranges := MoveForShrink(formats[f], startIndex, count);
        formats := formats[f := ranges];
        pending := pending - {f};
      }

      NormalizeEntries();
      ShrinkKeepsValid(old(formats), formats, startIndex, count, slotLength);
    }

    /** The second pass of `shrink`: every list normalised, an empty one
        deleted. */
    method NormalizeEntries()
      modifies this
      ensures slotLength == old(slotLength)
      ensures forall f :: f in formats <==> f in old(formats) && Normalize(false, old(formats)[f], None, slotLength) != []
      ensures forall f :: f in formats ==> formats[f] == Normalize(false, old(formats)[f], None, slotLength)
    {
      var keys := formats.Keys;
      while keys != {}
        invariant keys <= old(formats).Keys
        invariant slotLength == old(slotLength)
        invariant forall f :: f in formats <==>
                    f in keys || (f in old(formats) && Normalize(false, old(formats)[f], None, slotLength) != [])
        invariant forall f :: f in formats ==>
                    formats[f] == if f in keys then old(formats)[f] else Normalize(false, old(formats)[f], None, slotLength)
        decreases keys
      {
        var f :| f in keys;
        var newRanges := NormalizeFormatRange(false, formats[f], None);
        if newRanges != [] {
          formats := formats[f := newRanges];
        } else {
          formats := formats - {f};
        }
        keys := keys - {f};
      }
    }

    /** The moving pass of `shrink` over one formatter's list. */
    static method MoveForShrink(ranges0: seq<Range>, startIndex: nat, count: nat) returns (ranges: seq<Range>)
      ensures ranges == ShrinkRanges(ranges0, startIndex, count)
    {
      ranges := ranges0;
      for k := 0 to |ranges|
        invariant |ranges| == |ranges0|
        invariant forall j :: 0 <= j < k ==> ranges[j] == ShrinkRange(ranges0[j], startIndex, count)
        invariant forall j :: k <= j < |ranges| ==> ranges[j] == ranges0[j]
      {
        var range := ranges[k];
        if range.end <= startIndex {
          continue;
        }
        range := range.(end := AtLeast(startIndex, range.end - count));
        if range.start > startIndex {
          range := range.(start := AtLeast(startIndex, range.start - count));
        }
        ranges := ranges[k := range];
      }
    }

    // -------------------------------------------------------------------
    // extraction

    /** `extractFormatRangesByFormatter`: the formatter's ranges clipped to
        [startIndex, endIndex], empty pieces dropped. The result shows the
        entry's values inside the window and nothing outside it. */
    method ExtractFormatRangesByFormatter(startIndex: nat, endIndex: nat, formatter: Formatter)
      returns (extractRanges: seq<Range>)
      ensures extractRanges == ExtractRanges(Entry(formatter), startIndex, endIndex)
      ensures forall k :: 0 <= k < |extractRanges| ==>
                startIndex <= extractRanges[k].start < extractRanges[k].end <= endIndex
      ensures forall p :: ValueAt(extractRanges, p)
                       == if startIndex <= p < endIndex then ValueAt(Entry(formatter), p) else None
    {
      extractRanges := [];
      var ranges := Entry(formatter);
      for k := 0 to |ranges|
        invariant extractRanges == ExtractRanges(ranges[..k], startIndex, endIndex)
      {
        assert ranges[..k + 1][..k] == ranges[..k];
        var range := ranges[k];
        if range.start > endIndex || range.end < startIndex {
          continue;
        }
        var s := Max(range.start, startIndex);
        var n := Min(range.end, endIndex);
        if s < n {
          extractRanges := extractRanges + [Range(s, n, range.value)];
        }
      }
      assert ranges[..|ranges|] == ranges;
      ExtractBounds(ranges, startIndex, endIndex);
      forall p ensures ValueAt(extractRanges, p) == if startIndex <= p < endIndex then ValueAt(ranges, p) else None {
        ExtractValueAt(ranges, startIndex, endIndex, p);
      }
    }

    /** `extract`: a new format over the same slot holding every formatter's
        clipped ranges; positions are not rebased and this one is unchanged. */
    method Extract(startIndex: nat, endIndex: nat) returns (format: Format)
      ensures fresh(format)
      ensures format.slotLength == slotLength
      ensures format.formats == ExtractMap(formats, startIndex, endIndex)
      ensures Valid() ==> format.Valid()
    {
      format := new Format(slotLength);
      var pending := formats.Keys;
      while pending != {}
        invariant pending <= formats.Keys
        invariant fresh(format) && format.slotLength == slotLength
        invariant format.formats == ExtractMap(formats - pending, startIndex, endIndex)
        decreases pending
      {
        var f :| f in pending;
        var extractRanges := ExtractFormatRangesByFormatter(startIndex, endIndex, f);
        if extractRanges != [] {
          format.formats := format.formats[f := extractRanges];
        }
        pending := pending - {f};
        assert format.formats == ExtractMap(formats - pending, startIndex, endIndex);
      }
      assert formats - {} == formats;
      if Valid() {
        ExtractKeepsValid(formats, startIndex, endIndex);
      }
    }

    /** `createFormatByRange`: like `extract`, but for the given slot and
        with every range moved back by `startIndex`. */
    method CreateFormatByRange(slotLength: nat, startIndex: nat, endIndex: nat) returns (format: Format)
      ensures fresh(format)
      ensures format.slotLength == slotLength
      ensures format.formats == RebasedMap(formats, startIndex, endIndex)
      ensures Valid() ==> format.Valid()
    {
      format := new Format(slotLength);
      var pending := formats.Keys;
      while pending != {}
        invariant pending <= formats.Keys
        invariant fresh(format) && format.slotLength == slotLength
        invariant forall g :: g in format.formats <==>
                    g in formats && g !in pending && ExtractRanges(formats[g], startIndex, endIndex) != []
        invariant forall g :: g in format.formats ==> format.formats[g] == Rebased(formats[g], startIndex, endIndex)
        decreases pending
      {
        var f :| f in pending;
        var extractRanges := ExtractFormatRangesByFormatter(startIndex, endIndex, f);
        if extractRanges != [] {
          var moved := seq(|extractRanges|, k requires 0 <= k < |extractRanges| =>
            Range(extractRanges[k].start - startIndex, extractRanges[k].end - startIndex, extractRanges[k].value));
          assert moved == Rebased(formats[f], startIndex, endIndex);
          format.formats := format.formats[f := moved];
        }
        pending := pending - {f};
      }
      assert format.formats == RebasedMap(formats, startIndex, endIndex);
      if Valid() {
        RebaseKeepsValid(formats, startIndex, endIndex);
      }
    }

    // -------------------------------------------------------------------
    // discard

    /** `discard` as written: it normalises the entry against a void range
        over [startIndex, endIndex) and then drops the result, so the map is
        left as it was. */
    method Discard(formatter: Formatter, startIndex: nat, endIndex: nat)
      ensures formats == old(formats)
    {
      if formatter in formats {
        var dropped := NormalizeFormatRange(false, formats[formatter], Some(Range(startIndex, endIndex, None)));
      }
    }

    /** `discard` as evidently intended: the normalised result is stored, or
        the entry deleted when nothing is left. */
    method DiscardIntended(formatter: Formatter, startIndex: nat, endIndex: nat)
      requires Valid()
      modifies this
      ensures !formatter.isBlock ==> Valid()
      ensures slotLength == old(slotLength)
      ensures formatter !in old(formats) ==> formats == old(formats)
      ensures formatter in old(formats) ==>
                var kept := Normalize(false, old(formats)[formatter], Some(Range(startIndex, endIndex, None)), slotLength);
                formats == if kept != [] then old(formats)[formatter := kept] else old(formats) - {formatter}
      ensures forall p :: ValueAt(Entry(formatter), p)
                       == if formatter in old(formats) && 0 <= p < slotLength && !(startIndex <= p < endIndex)
                          then ValueAt(old(formats)[formatter], p) else None
    {
      if formatter in formats {
        forall p {
          DiscardClears(formats[formatter], startIndex, endIndex, slotLength, p);
        }
        var newRanges := NormalizeFormatRange(false, formats[formatter], Some(Range(startIndex, endIndex, None)));
        if newRanges != [] {
          CanonicalNormalized(newRanges, slotLength);
          formats := formats[formatter := newRanges];
        } else {
          formats := formats - {formatter};
        }
      }
    }

    // -------------------------------------------------------------------
    // queries

    /** `extractFormatsByIndex(index)`: for every formatter, the values of
        its ranges that start at 0 (index 0) or that start before `index` and
        reach it (any other index), in list order. */
    method ExtractFormatsByIndex(index: nat) returns (result: seq<(Formatter, FormatValue)>)
      ensures forall f :: ValuesFor(result, f) == ActiveValues(Entry(f), index)
    {
      result := [];
      var pending := formats.Keys;
      while pending != {}
        invariant pending <= formats.Keys
        invariant forall f :: ValuesFor(result, f) == if f in formats && f !in pending then ActiveValues(formats[f], index) else []
        decreases pending
      {
        var f :| f in pending;
        ghost var before := result;
        result := CollectActive(f, formats[f], index, result);
        pending := pending - {f};
        forall g ensures ValuesFor(result, g) == if g in formats && g !in pending then ActiveValues(formats[g], index) else [] {
          if g == f {
            assert ValuesFor(before, f) == [];
          }
        }
      }
    }

    /** One formatter's turn in `extractFormatsByIndex`: the values of its
        active ranges appended, in list order. */
    static method CollectActive(formatter: Formatter, ranges: seq<Range>, index: nat, before: seq<(Formatter, FormatValue)>)
      returns (result: seq<(Formatter, FormatValue)>)
      ensures ValuesFor(result, formatter) == ValuesFor(before, formatter) + ActiveValues(ranges, index)
      ensures forall g :: g != formatter ==> ValuesFor(result, g) == ValuesFor(before, g)
    {
      result := before;
      for k := 0 to |ranges|
        invariant ValuesFor(result, formatter) == ValuesFor(before, formatter) + ActiveValues(ranges[..k], index)
        invariant forall g :: g != formatter ==> ValuesFor(result, g) == ValuesFor(before, g)
      {
        assert ranges[..k + 1][..k] == ranges[..k];
        var i := ranges[k];
        var active := if index == 0 then i.start == 0 else i.start < index && i.end >= index;
        if active {
          assert (result + [(formatter, i.value)])[..|result|] == result;
          result := result + [(formatter, i.value)];
        }
      }
      assert ranges[..|ranges|] == ranges;
    }

    /** `toArray`: every range of every formatter tagged with its formatter;
        each formatter's items appear in the order of its list. */
    method ToArray() returns (list: seq<FormatItem>)
      ensures forall f :: ItemsFor(list, f) == Tagged(f, Entry(f))
    {
      list := [];
      var pending := formats.Keys;
      while pending != {}
        invariant pending <= formats.Keys
        invariant forall f :: ItemsFor(list, f) == if f in formats && f !in pending then Tagged(f, formats[f]) else []
        decreases pending
      {
        var f :| f in pending;
        ghost var before := list;
        list := CollectItems(f, formats[f], list);
        pending := pending - {f};
        forall g ensures ItemsFor(list, g) == if g in formats && g !in pending then Tagged(g, formats[g]) else [] {
          if g == f {
            assert ItemsFor(before, f) == [];
          }
        }
      }
    }

    /** One formatter's turn in `toArray`: its ranges appended as items. */
    static method CollectItems(formatter: Formatter, ranges: seq<Range>, before: seq<FormatItem>)
      returns (list: seq<FormatItem>)
      ensures ItemsFor(list, formatter) == ItemsFor(before, formatter) + Tagged(formatter, ranges)
      ensures forall g :: g != formatter ==> ItemsFor(list, g) == ItemsFor(before, g)
    {
      list := before;
      for k := 0 to |ranges|
        invariant ItemsFor(list, formatter) == ItemsFor(before, formatter) + Tagged(formatter, ranges[..k])
        invariant forall g :: g != formatter ==> ItemsFor(list, g) == ItemsFor(before, g)
      {
        var range := ranges[k];
        var item := FormatItem(formatter, range.value, range.start, range.end);
        assert (list + [item])[..|list|] == list;
        assert Tagged(formatter, ranges[..k + 1]) == Tagged(formatter, ranges[..k]) + [item];
        list := list + [item];
      }
      assert ranges[..|ranges|] == ranges;
    }

    /** `toJSON`: each formatter's ranges under its name. Two formatters
        sharing a name are left out of the model. */
    method ToJson() returns (json: map<string, seq<Range>>)
      requires forall f, g :: f in formats && g in formats && f.name == g.name ==> f == g
      ensures json.Keys == set f | f in formats :: f.name
      ensures forall f :: f in formats ==> json[f.name] == formats[f]
    {
      json := map[];
      var pending := formats.Keys;
      while pending != {}
        invariant pending <= formats.Keys
        invariant json.Keys == set f | f in formats && f !in pending :: f.name
        invariant forall f :: f in formats && f !in pending ==> json[f.name] == formats[f]
        decreases pending
      {
        var f :| f in pending;
        json := json[f.name := formats[f]];
        pending := pending - {f};
      }
    }

    /** `toGrid`: the cut points — 0, the slot length and every start and
        end — in strictly ascending order, each once. */
    method ToGrid() returns (grid: seq<int>)
      ensures forall j, k :: 0 <= j < k < |grid| ==> grid[j] < grid[k]
      ensures forall x :: x in grid <==> x in GridPoints(formats, slotLength)
    {
      var splitPoints: set<int> := {0, slotLength};
      var pending := formats.Keys;
      while pending != {}
        invariant pending <= formats.Keys
        invariant splitPoints == GridPoints(formats - pending, slotLength)
        decreases pending
      {
        var f :| f in pending;
        var ranges := formats[f];
        ghost var done := formats - pending;
        ghost var before := splitPoints;
        for k := 0 to |ranges|
          invariant splitPoints == before + EndPoints(ranges[..k])
        {
          assert EndPoints(ranges[..k + 1]) == EndPoints(ranges[..k]) + {ranges[k].start as int, ranges[k].end as int};
          splitPoints := splitPoints + {ranges[k].start as int, ranges[k].end as int};
        }
        assert ranges[..|ranges|] == ranges;
        pending := pending - {f};
        GridPointsAdd(done, f, ranges, slotLength);
        assert formats - pending == done[f := ranges];
      }
      assert formats - {} == formats;
      grid := SortAscending(splitPoints);
    }

    /** The points of a set in ascending numeric order. */
    static method SortAscending(points: set<int>) returns (sorted: seq<int>)
      ensures forall j, k :: 0 <= j < k < |sorted| ==> sorted[j] < sorted[k]
      ensures forall x :: x in sorted <==> x in points
    {
      sorted := [];
      var rest := points;
      while rest != {}
        invariant rest <= points
        invariant forall j, k :: 0 <= j < k < |sorted| ==> sorted[j] < sorted[k]
        invariant forall x :: x in sorted <==> x in points && x !in rest
        invariant forall j, y :: 0 <= j < |sorted| && y in rest ==> sorted[j] < y
        decreases rest
      {
        ghost var smallest := LeastExists(rest);
        var least :| least in rest && forall y :: y in rest ==> least <= y;
        sorted := sorted + [least];
        rest := rest - {least};
      }
    }

    /** `toTree(startIndex, endIndex)`, where `order` is the order in which
        the map lists its formatters. The format itself is left unchanged:
        only a private copy loses its entries. */
    method ToTree(startIndex: nat, endIndex: nat, order: seq<Formatter>) returns (tree: FormatTree)
      requires KeyOrder(formats, order)
      ensures tree == Tree(formats, order, startIndex, endIndex)
      decreases endIndex - startIndex, 1
    {
      var copyFormat := Extract(startIndex, endIndex);
      ghost var copy := copyFormat.formats;
      var nextStartIndex, nextEndIndex, fullFormats, columnedFormats :=
        ScanRanges(copyFormat, order, startIndex, endIndex);
      ghost var st := ScanAll(Pairs(copy, order), startIndex, endIndex);
      TreeNode(formats, order, startIndex, endIndex, copyFormat.formats, st);
      if |copyFormat.formats.Keys| > |columnedFormats| {
        var children := ChildTrees(copyFormat, order, startIndex, endIndex, nextStartIndex, nextEndIndex, |columnedFormats| > 0);
        tree := FormatTree(startIndex, endIndex, Some(children), if |fullFormats| > 0 then Some(fullFormats) else None);
      } else {
        fullFormats := fullFormats + columnedFormats;
        tree := FormatTree(startIndex, endIndex, None, if |fullFormats| > 0 then Some(fullFormats) else None);
      }
    }

    /** The children `toTree` makes once the scan has found [ns, ne). */
    static method ChildTrees(copyFormat: Format, order: seq<Formatter>, startIndex: nat, endIndex: nat,
                             nextStartIndex: nat, nextEndIndex: nat, hasColumned: bool)
      returns (children: seq<FormatTree>)
      requires KeyOrder(copyFormat.formats, order)
      requires startIndex <= nextStartIndex < nextEndIndex <= endIndex
      requires nextStartIndex == startIndex ==> nextEndIndex < endIndex
      ensures children == Children(copyFormat.formats, order, startIndex, endIndex, nextStartIndex, nextEndIndex, hasColumned)
      decreases endIndex - startIndex, 0
    {
      children := LeadChildren(copyFormat, order, startIndex, nextStartIndex, hasColumned);
      var nextTree := copyFormat.ToTree(nextStartIndex, nextEndIndex, order);
      children := children + Pushed(nextTree);
      if nextEndIndex < endIndex {
        ExtractKeyOrder(copyFormat.formats, order, nextEndIndex, endIndex);
        var afterFormat := copyFormat.Extract(nextEndIndex, endIndex);
        var afterTree := afterFormat.ToTree(nextEndIndex, endIndex, order);
        children := children + Pushed(afterTree);
      } else {
        assert children == children + [];
      }
    }

    /** The first child `toTree` pushes: the interval before the next one,
        as a subtree of the copy when there are columned formats. */
    static method LeadChildren(copyFormat: Format, order: seq<Formatter>, startIndex: nat, nextStartIndex: nat, hasColumned: bool)
      returns (children: seq<FormatTree>)
      requires KeyOrder(copyFormat.formats, order)
      ensures children == Lead(copyFormat.formats, order, startIndex, nextStartIndex, hasColumned)
      decreases nextStartIndex - startIndex, 2
    {
      children := [];
      if startIndex < nextStartIndex {
        if hasColumned {
          ExtractKeyOrder(copyFormat.formats, order, startIndex, nextStartIndex);
          var leadFormat := copyFormat.Extract(startIndex, nextStartIndex);
          var childTree := leadFormat.ToTree(startIndex, nextStartIndex, order);
          children := children + [childTree];
        } else {
          children := children + [FormatTree(startIndex, nextStartIndex, None, None)];
        }
      }
    }

    /** The scan of `toTree` over the copy's ranges, in key order: it files
        the ranges spanning [startIndex, endIndex), deletes the non-columned
        formatters among them from the copy, and finds the next interval. */
    static method ScanRanges(copyFormat: Format, order: seq<Formatter>, startIndex: nat, endIndex: nat)
      returns (nextStartIndex: nat, nextEndIndex: nat, fullFormats: seq<FormatItem>, columnedFormats: seq<FormatItem>)
      modifies copyFormat
      ensures var st := ScanAll(Pairs(old(copyFormat.formats), order), startIndex, endIndex);
              && nextStartIndex == st.nextStart && nextEndIndex == st.nextEnd
              && fullFormats == st.formats && columnedFormats == st.columned
              && copyFormat.formats == old(copyFormat.formats) - st.deleted
      ensures copyFormat.slotLength == old(copyFormat.slotLength)
    {
      // the formatters and their lists as they were before the scan
      var snapshot := copyFormat.formats;
      nextStartIndex := endIndex;
      nextEndIndex := startIndex;
      fullFormats := [];
      columnedFormats := [];
      ghost var deleted: set<Formatter> := {};
      for i := 0 to |order|
        invariant Scan(nextStartIndex, nextEndIndex, fullFormats, columnedFormats, deleted)
                  == ScanAll(Pairs(snapshot, order[..i]), startIndex, endIndex)
        invariant copyFormat.formats == snapshot - deleted
        invariant copyFormat.slotLength == old(copyFormat.slotLength)
      {
        var formatter := order[i];
        assert order[..i + 1][..i] == order[..i];
        ghost var visited := Pairs(snapshot, order[..i]);
        if formatter in snapshot {
          var ranges := snapshot[formatter];
          nextStartIndex, nextEndIndex, fullFormats, columnedFormats, deleted :=
            ScanEntry(copyFormat, snapshot, visited, formatter, ranges, startIndex, endIndex,
                      nextStartIndex, nextEndIndex, fullFormats, columnedFormats, deleted);
          assert order[..i + 1][i] == formatter;
          assert Pairs(snapshot, order[..i + 1]) == visited + TagPairs(formatter, ranges);
        } else {
          assert visited + [] == visited;
        }
      }
      assert order[..|order|] == order;
    }

    /** One formatter's turn in the scan of `toTree`: its ranges, in order. */
    static method ScanEntry(copyFormat: Format, ghost snapshot: map<Formatter, seq<Range>>,
                            ghost visited: seq<(Formatter, Range)>, formatter: Formatter, ranges: seq<Range>,
                            startIndex: nat, endIndex: nat, nextStartIndex0: nat, nextEndIndex0: nat,
                            fullFormats0: seq<FormatItem>, columnedFormats0: seq<FormatItem>, ghost deleted0: set<Formatter>)
      returns (nextStartIndex: nat, nextEndIndex: nat, fullFormats: seq<FormatItem>, columnedFormats: seq<FormatItem>,
               ghost deleted: set<Formatter>)
      requires Scan(nextStartIndex0, nextEndIndex0, fullFormats0, columnedFormats0, deleted0)
               == ScanAll(visited, startIndex, endIndex)
      requires copyFormat.formats == snapshot - deleted0
      modifies copyFormat
      ensures Scan(nextStartIndex, nextEndIndex, fullFormats, columnedFormats, deleted)
              == ScanAll(visited + TagPairs(formatter, ranges), startIndex, endIndex)
      ensures copyFormat.formats == snapshot - deleted
      ensures copyFormat.slotLength == old(copyFormat.slotLength)
    {
      nextStartIndex, nextEndIndex, fullFormats, columnedFormats, deleted :=
        nextStartIndex0, nextEndIndex0, fullFormats0, columnedFormats0, deleted0;
      assert visited + TagPairs(formatter, ranges[..0]) == visited;
      for k := 0 to |ranges|
        invariant Scan(nextStartIndex, nextEndIndex, fullFormats, columnedFormats, deleted)
                  == ScanAll(visited + TagPairs(formatter, ranges[..k]), startIndex, endIndex)
        invariant copyFormat.formats == snapshot - deleted
        invariant copyFormat.slotLength == old(copyFormat.slotLength)
      {
        var range := ranges[k];
        assert visited + TagPairs(formatter, ranges[..k + 1]) == (visited + TagPairs(formatter, ranges[..k])) + [(formatter, range)];
        if range.start == startIndex && range.end == endIndex {
          if formatter.columned {
            columnedFormats := columnedFormats + [FormatItem(formatter, range.value, range.start, range.end)];
          } else {
            fullFormats := fullFormats + [FormatItem(formatter, range.value, range.start, range.end)];
            copyFormat.formats := copyFormat.formats - {formatter};
            deleted := deleted + {formatter};
          }
        } else if range.start < nextStartIndex {
          nextStartIndex := range.start;
          nextEndIndex := range.end;
        } else if range.start == nextStartIndex {
          nextEndIndex := Max(nextEndIndex, range.end);
        }
      }
      assert TagPairs(formatter, ranges[..|ranges|]) == TagPairs(formatter, ranges);
    }

    // -------------------------------------------------------------------
    // normalisation

    /** `normalizeFormatRange`: the candidates tiled and re-ranged. */
    method NormalizeFormatRange(background: bool, oldRanges: seq<Range>, newRange: Option<Range>)
      returns (ranges: seq<Range>)
      ensures ranges == Normalize(background, oldRanges, newRange, slotLength)
      ensures Canonical(ranges, slotLength)
    {
      var candidates := oldRanges;
      if newRange.Some? {
        candidates := if background then [newRange.value] + oldRanges else oldRanges + [newRange.value];
      }
      var formatValues := TileRanges(candidates);
      assert formatValues == Tile(candidates, slotLength);
      ranges := ToRanges(formatValues);
      NormalizeCanonical(background, oldRanges, newRange, slotLength);
    }

    /** `tileRanges`: one entry per position up to the furthest end (cut to
        the slot length), holding the value of the last range covering it. */
    method TileRanges(ranges: seq<Range>) returns (formatValues: seq<FormatValue>)
      ensures |formatValues| == Min(MaxEnd(ranges), slotLength)
      ensures forall p :: 0 <= p < |formatValues| ==> formatValues[p] == ValueAt(ranges, p)
    {
      formatValues := [];
      for k := 0 to |ranges|
        invariant |formatValues| == MaxEnd(ranges[..k])
        invariant forall p :: 0 <= p < |formatValues| ==> formatValues[p] == ValueAt(ranges[..k], p)
      {
        var range := ranges[k];
        assert ranges[..k + 1][..k] == ranges[..k];
        forall p | |formatValues| <= p {
          ValueAtBeyondMaxEnd(ranges[..k], p);
        }
        // grow the array to the range's end
        if |formatValues| < range.end {
          formatValues := formatValues + seq(range.end - |formatValues|, _ => None);
        }
        // paint the range's positions with its value
        var filled := formatValues;
        formatValues := seq(|filled|, p requires 0 <= p < |filled| =>
          if range.start <= p < range.end then range.value else filled[p]);
      }
      assert ranges[..|ranges|] == ranges;
      // cut the array at the slot length
      if slotLength < |formatValues| {
        formatValues := formatValues[..slotLength];
      }
    }

    /** `toRanges`: the canonical ranges of the non-void runs of the array,
        which give back every entry of it. */
    static method ToRanges(values: seq<FormatValue>) returns (newRanges: seq<Range>)
      ensures newRanges == Runs(values)
      ensures Canonical(newRanges, |values|)
      ensures forall p :: ValueAt(newRanges, p) == if 0 <= p < |values| then values[p] else None
    {
      newRanges := [];
      // `open` says whether a range is being extended: the open range is
      // the last one pushed.
      var open := false;
      for i := 0 to |values|
        invariant newRanges == Runs(values[..i])
        invariant open <==> newRanges != [] && newRanges[|newRanges| - 1].end == i
      {
        RunsStep(values, i);
        var item := values[i];
        if IsVoid(item) {
          open := false;
          continue;
        }
        if open && ValueEqual(newRanges[|newRanges| - 1].value, item) {
          newRanges := newRanges[..|newRanges| - 1] + [newRanges[|newRanges| - 1].(end := i + 1)];
          continue;
        }
        newRanges := newRanges + [Range(i, i + 1, item)];
        open := true;
      }
      assert values[..|values|] == values;
      RunsCanonical(values);
      forall p ensures ValueAt(newRanges, p) == if 0 <= p < |values| then values[p] else None {
        RunsValueAt(values, p);
      }
    }
  }
}
