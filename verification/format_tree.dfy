/**
 * `toTree` of packages/core/src/model/format.ts: the nesting of a slot's
 * formats into a tree of intervals. The scan over the formatter map is a
 * fold over its (formatter, range) pairs in the map's key order; the key
 * order is a parameter, since a JavaScript `Map` lists keys in insertion
 * order.
 */
module FormatTrees {
  import opened Wrappers
  import opened FormatValues
  import opened RangeAlgebra
  import opened RangeEdits

  /** A `FormatItem`: a range tagged with its formatter. */
  datatype FormatItem = FormatItem(formatter: Formatter, value: FormatValue, start: nat, end: nat)

  /** A `FormatTree`: an interval, its sub-intervals and the formats that
      span it whole. Both optional members are absent rather than empty. */
  datatype FormatTree = FormatTree(start: nat, end: nat, children: Option<seq<FormatTree>>, formats: Option<seq<FormatItem>>)

  /** `order` lists each formatter at most once and every key of `m`. */
  predicate KeyOrder(m: map<Formatter, seq<Range>>, order: seq<Formatter>)
  {
    && (forall f :: f in m ==> f in order)
    && (forall j, k :: 0 <= j < k < |order| ==> order[j] != order[k])
  }

  /** Every range of every formatter lies inside [s, e] and is non-empty. */
  predicate Within(m: map<Formatter, seq<Range>>, s: nat, e: nat)
  {
    forall f, k :: f in m && 0 <= k < |m[f]| ==> s <= m[f][k].start < m[f][k].end <= e
  }

  function Item(f: Formatter, r: Range): FormatItem
  {
    FormatItem(f, r.value, r.start, r.end)
  }

  function TagPairs(f: Formatter, rs: seq<Range>): seq<(Formatter, Range)>
  {
    seq(|rs|, k requires 0 <= k < |rs| => (f, rs[k]))
  }

  /** The (formatter, range) pairs the scan visits, in the order it visits
      them. */
  function Pairs(m: map<Formatter, seq<Range>>, order: seq<Formatter>): seq<(Formatter, Range)>
  {
    if order == [] then []
    else
      var f := order[|order| - 1];
      Pairs(m, order[..|order| - 1]) + (if f in m then TagPairs(f, m[f]) else [])
  }

  /** The scan's local state: `nextStartIndex`, `nextEndIndex`, `formats`,
      `columnedFormats`, and the formatters deleted from the copy. */
  datatype Scan = Scan(nextStart: nat, nextEnd: nat, formats: seq<FormatItem>, columned: seq<FormatItem>, deleted: set<Formatter>)

  /** One range of the scan. A range spanning [s, e) exactly is a format of
      this node (a columned one is kept apart, any other is taken out of the
      copy); of the others, the earliest start wins, with the furthest end
      among those sharing it. */
  function ScanStep(st: Scan, x: (Formatter, Range), s: nat, e: nat): Scan
  {
    var f := x.0;
    var r := x.1;
    if r.start == s && r.end == e then
      if f.columned then st.(columned := st.columned + [Item(f, r)])
      else st.(formats := st.formats + [Item(f, r)], deleted := st.deleted + {f})
    else if r.start < st.nextStart then st.(nextStart := r.start, nextEnd := r.end)
    else if r.start == st.nextStart then st.(nextEnd := Max(st.nextEnd, r.end))
    else st
  }

  function ScanAll(pairs: seq<(Formatter, Range)>, s: nat, e: nat): Scan
  {
    if pairs == [] then Scan(e, s, [], [], {})
    else ScanStep(ScanAll(pairs[..|pairs| - 1], s, e), pairs[|pairs| - 1], s, e)
  }

  /** `push`: a child with formats is kept as a node, a child without
      formats but with children is replaced by them. */
  function Pushed(t: FormatTree): seq<FormatTree>
  {
    if t.formats.Some? then [t] else if t.children.Some? then t.children.value else [t]
  }

  /** `toTree(s, e)` of a format whose map is `m`. */
  function Tree(m: map<Formatter, seq<Range>>, order: seq<Formatter>, s: nat, e: nat): (t: FormatTree)
    requires KeyOrder(m, order)
    ensures t.start == s && t.end == e
    decreases e - s, 1
  {
    var copy := ExtractMap(m, s, e);
    var st := ScanAll(Pairs(copy, order), s, e);
    var rest := copy - st.deleted;
    if |rest.Keys| > |st.columned| then
      NextInterval(m, order, s, e, copy, st);
      var children := Children(rest, order, s, e, st.nextStart, st.nextEnd, |st.columned| > 0);
      FormatTree(s, e, Some(children), if |st.formats| > 0 then Some(st.formats) else None)
    else
      var all := st.formats + st.columned;
      FormatTree(s, e, None, if |all| > 0 then Some(all) else None)
  }

  /** The children of a node over [s, e) whose scan found [ns, ne): the
      part before it, the subtree of [ns, ne) through `push`, and the part
      after it. */
  function Children(rest: map<Formatter, seq<Range>>, order: seq<Formatter>, s: nat, e: nat,
                    ns: nat, ne: nat, hasColumned: bool): seq<FormatTree>
    requires KeyOrder(rest, order)
    requires s <= ns < ne <= e && (ns == s ==> ne < e)
    decreases e - s, 0
  {
    Lead(rest, order, s, ns, hasColumned) + Pushed(Tree(rest, order, ns, ne)) + After(rest, order, ne, e)
  }

  /** The part before [ns, ne): nothing when it is empty, a subtree when
      the node has columned formats, a bare interval otherwise. */
  function Lead(rest: map<Formatter, seq<Range>>, order: seq<Formatter>, s: nat, ns: nat, hasColumned: bool): (lead: seq<FormatTree>)
    requires KeyOrder(rest, order)
    ensures s < ns ==> Tiles(lead, s, ns)
    ensures s >= ns ==> lead == []
    decreases ns - s, 2
  {
    if s < ns then
      if hasColumned then [Tree(ExtractMap(rest, s, ns), order, s, ns)]
      else [FormatTree(s, ns, None, None)]
    else []
  }

  /** The part after [ns, ne), through `push`. */
  function After(rest: map<Formatter, seq<Range>>, order: seq<Formatter>, ne: nat, e: nat): seq<FormatTree>
    requires KeyOrder(rest, order)
    decreases e - ne, 2
  {
    if ne < e then Pushed(Tree(ExtractMap(rest, ne, e), order, ne, e)) else []
  }

  // ---------------------------------------------------------------------
  // what the scan finds

  lemma {:induction false} PairsFrom(m: map<Formatter, seq<Range>>, order: seq<Formatter>)
    ensures forall k :: 0 <= k < |Pairs(m, order)| ==> Pairs(m, order)[k].0 in m && Pairs(m, order)[k].1 in m[Pairs(m, order)[k].0]
  {
    if order != [] {
      PairsFrom(m, order[..|order| - 1]);
    }
  }

  lemma {:induction false} PairsContain(m: map<Formatter, seq<Range>>, order: seq<Formatter>, g: Formatter, k: nat)
    requires g in m && g in order && k < |m[g]|
    ensures (g, m[g][k]) in Pairs(m, order)
  {
    var f := order[|order| - 1];
    if f == g {
      assert TagPairs(g, m[g])[k] == (g, m[g][k]);
    } else {
      assert g in order[..|order| - 1];
      PairsContain(m, order[..|order| - 1], g, k);
    }
  }

  lemma PairsWithin(m: map<Formatter, seq<Range>>, order: seq<Formatter>, s: nat, e: nat)
    requires Within(m, s, e)
    ensures forall k :: 0 <= k < |Pairs(m, order)| ==> s <= Pairs(m, order)[k].1.start < Pairs(m, order)[k].1.end <= e
  {
    PairsFrom(m, order);
  }

  /** What the scan has found after any prefix: the next interval is either
      unset or a proper non-empty part of [s, e); while it is unset every
      range seen spanned [s, e) and was filed; the formats found span
      [s, e), the columned ones apart from the others. */
  lemma {:induction false} ScanFacts(pairs: seq<(Formatter, Range)>, s: nat, e: nat, st: Scan)
    requires forall k :: 0 <= k < |pairs| ==> s <= pairs[k].1.start < pairs[k].1.end <= e
    requires st == ScanAll(pairs, s, e)
    ensures (st.nextStart == e && st.nextEnd == s)
            || (s <= st.nextStart < st.nextEnd <= e && (st.nextStart == s ==> st.nextEnd < e))
    ensures st.nextStart == e ==>
              forall k :: 0 <= k < |pairs| ==>
                && pairs[k].1.start == s && pairs[k].1.end == e
                && (pairs[k].0.columned ==> Item(pairs[k].0, pairs[k].1) in st.columned)
                && (!pairs[k].0.columned ==> pairs[k].0 in st.deleted)
    ensures forall k :: 0 <= k < |st.formats| ==>
              st.formats[k].start == s && st.formats[k].end == e && !st.formats[k].formatter.columned
    ensures forall k :: 0 <= k < |st.columned| ==>
              st.columned[k].start == s && st.columned[k].end == e && st.columned[k].formatter.columned
  {
    if pairs != [] {
      var prefix := pairs[..|pairs| - 1];
      var prev := ScanAll(prefix, s, e);
      ScanFacts(prefix, s, e, prev);
    }
  }

  function Formatters(items: seq<FormatItem>): set<Formatter>
  {
    set k | 0 <= k < |items| :: items[k].formatter
  }

  lemma {:induction false} FormattersBound(items: seq<FormatItem>)
    ensures |Formatters(items)| <= |items|
  {
    if items != [] {
      var prefix := items[..|items| - 1];
      FormattersBound(prefix);
      assert Formatters(items) == Formatters(prefix) + {items[|items| - 1].formatter};
    }
  }

  lemma SubsetSize<T>(a: set<T>, b: set<T>)
    requires a <= b
    ensures |a| <= |b|
  {
    assert b == a + (b - a);
  }

  /** With the next interval unset, every formatter left in the copy is a
      columned one with a columned format, so no children are made. */
  lemma NoPartialNoChildren(m: map<Formatter, seq<Range>>, order: seq<Formatter>, s: nat, e: nat, st: Scan)
    requires KeyOrder(m, order) && Within(m, s, e)
    requires forall f :: f in m ==> m[f] != []
    requires st == ScanAll(Pairs(m, order), s, e)
    requires st.nextStart == e
    ensures |(m - st.deleted).Keys| <= |st.columned|
  {
    var pairs := Pairs(m, order);
    PairsWithin(m, order, s, e);
    ScanFacts(pairs, s, e, st);
    forall g | g in (m - st.deleted).Keys
      ensures g in Formatters(st.columned)
    {
      PairsContain(m, order, g, 0);
      var j :| 0 <= j < |pairs| && pairs[j] == (g, m[g][0]);
      var i :| 0 <= i < |st.columned| && st.columned[i] == Item(g, m[g][0]);
      assert st.columned[i].formatter == g;
    }
    SubsetSize((m - st.deleted).Keys, Formatters(st.columned));
    FormattersBound(st.columned);
  }

  lemma ExtractKeyOrder(m: map<Formatter, seq<Range>>, order: seq<Formatter>, s: nat, e: nat)
    requires KeyOrder(m, order)
    ensures KeyOrder(ExtractMap(m, s, e), order)
  {
  }

  /** The copy `toTree` scans: inside [s, e], non-empty lists, keys in
      `order`. */
  lemma CopyFacts(m: map<Formatter, seq<Range>>, order: seq<Formatter>, s: nat, e: nat)
    requires KeyOrder(m, order)
    ensures Within(ExtractMap(m, s, e), s, e)
    ensures forall f :: f in ExtractMap(m, s, e) ==> ExtractMap(m, s, e)[f] != []
    ensures KeyOrder(ExtractMap(m, s, e), order)
  {
    var copy: map<Formatter, seq<Range>> := ExtractMap(m, s, e);
    forall f, k | f in copy && 0 <= k < |copy[f]| ensures s <= copy[f][k].start < copy[f][k].end <= e {
      ExtractBounds(m[f], s, e);
    }
  }

  /** When a node has children, the scan has found a proper, non-empty
      part of [s, e); every recursive call works on a shorter interval. */
  lemma NextInterval(m: map<Formatter, seq<Range>>, order: seq<Formatter>, s: nat, e: nat,
                     copy: map<Formatter, seq<Range>>, st: Scan)
    requires KeyOrder(m, order)
    requires copy == ExtractMap(m, s, e)
    requires st == ScanAll(Pairs(copy, order), s, e)
    requires |(copy - st.deleted).Keys| > |st.columned|
    ensures s <= st.nextStart < st.nextEnd <= e && (st.nextStart == s ==> st.nextEnd < e)
    ensures KeyOrder(copy - st.deleted, order)
  {
    CopyFacts(m, order, s, e);
    PairsWithin(copy, order, s, e);
    ScanFacts(Pairs(copy, order), s, e, st);
    if st.nextStart == e {
      NoPartialNoChildren(copy, order, s, e, st);
    }
  }

  /** One level of `Tree`, in terms of the scan's result. */
  lemma TreeNode(m: map<Formatter, seq<Range>>, order: seq<Formatter>, s: nat, e: nat,
                 rest: map<Formatter, seq<Range>>, st: Scan)
    requires KeyOrder(m, order)
    requires st == ScanAll(Pairs(ExtractMap(m, s, e), order), s, e)
    requires rest == ExtractMap(m, s, e) - st.deleted
    ensures |rest.Keys| > |st.columned| ==>
              && s <= st.nextStart < st.nextEnd <= e && (st.nextStart == s ==> st.nextEnd < e)
              && KeyOrder(rest, order)
              && Tree(m, order, s, e)
                 == FormatTree(s, e, Some(Children(rest, order, s, e, st.nextStart, st.nextEnd, |st.columned| > 0)),
                               if |st.formats| > 0 then Some(st.formats) else None)
    ensures |rest.Keys| <= |st.columned| ==>
              Tree(m, order, s, e)
              == FormatTree(s, e, None, if |st.formats + st.columned| > 0 then Some(st.formats + st.columned) else None)
  {
    if |rest.Keys| > |st.columned| {
      NextInterval(m, order, s, e, ExtractMap(m, s, e), st);
    }
  }

  // ---------------------------------------------------------------------
  // the shape of the tree

  /** `cs` cuts [s, e) into consecutive non-empty intervals. */
  ghost predicate Tiles(cs: seq<FormatTree>, s: int, e: int)
  {
    && |cs| > 0 && cs[0].start == s && cs[|cs| - 1].end == e
    && (forall k :: 0 <= k < |cs| ==> cs[k].start < cs[k].end)
    && (forall j, k :: 0 <= j < |cs| && 0 <= k < |cs| && k == j + 1 ==> cs[j].end == cs[k].start)
  }

  lemma TilesAppend(a: seq<FormatTree>, b: seq<FormatTree>, s: int, mid: int, e: int)
    requires Tiles(a, s, mid) && Tiles(b, mid, e)
    ensures Tiles(a + b, s, e)
  {
    var c := a + b;
    forall j, k | 0 <= j < |c| && 0 <= k < |c| && k == j + 1 ensures c[j].end == c[k].start {
      if j == |a| - 1 {
        assert c[j] == a[|a| - 1] && c[k] == b[0];
      }
    }
  }

  /** The children of every node cut its interval into consecutive,
      non-empty intervals. */
  lemma {:induction false} TreePartition(m: map<Formatter, seq<Range>>, order: seq<Formatter>, s: nat, e: nat, t: FormatTree)
    requires KeyOrder(m, order)
    requires t == Tree(m, order, s, e)
    ensures t.children.Some? ==> Tiles(t.children.value, s, e)
    decreases e - s, 2
  {
    var copy := ExtractMap(m, s, e);
    var st := ScanAll(Pairs(copy, order), s, e);
    var rest := copy - st.deleted;
    if |rest.Keys| > |st.columned| {
      NextInterval(m, order, s, e, copy, st);
      ChildrenTiles(rest, order, s, e, st.nextStart, st.nextEnd, |st.columned| > 0);
    }
  }

  lemma {:induction false} ChildrenTiles(rest: map<Formatter, seq<Range>>, order: seq<Formatter>, s: nat, e: nat,
                                         ns: nat, ne: nat, hasColumned: bool)
    requires KeyOrder(rest, order)
    requires s <= ns < ne <= e && (ns == s ==> ne < e)
    ensures Tiles(Children(rest, order, s, e, ns, ne, hasColumned), s, e)
    decreases e - s, 1
  {
    var lead := Lead(rest, order, s, ns, hasColumned);
    var middle := Pushed(Tree(rest, order, ns, ne));
    var after := After(rest, order, ne, e);
    assert Children(rest, order, s, e, ns, ne, hasColumned) == lead + (middle + after);
    PushedTiles(rest, order, ns, ne);
    if ne < e {
      AfterTiles(rest, order, s, e, ns, ne);
      TilesAppend(middle, after, ns, ne, e);
    } else {
      assert middle + after == middle;
    }
    if s < ns {
      TilesAppend(lead, middle + after, s, ns, e);
    } else {
      assert lead + (middle + after) == middle + after;
    }
  }

  lemma {:induction false} AfterTiles(rest: map<Formatter, seq<Range>>, order: seq<Formatter>, s: nat, e: nat, ns: nat, ne: nat)
    requires KeyOrder(rest, order)
    requires s <= ns < ne < e
    ensures Tiles(After(rest, order, ne, e), ne, e)
    decreases e - s, 0
  {
    CopyFacts(rest, order, ne, e);
    PushedTiles(ExtractMap(rest, ne, e), order, ne, e);
  }

  lemma {:induction false} PushedTiles(m: map<Formatter, seq<Range>>, order: seq<Formatter>, s: nat, e: nat)
    requires KeyOrder(m, order) && s < e
    ensures Tiles(Pushed(Tree(m, order, s, e)), s, e)
    decreases e - s, 3
  {
    TreePartition(m, order, s, e, Tree(m, order, s, e));
  }

  /** A node's own formats span its interval; when the node is split into
      children its columned formats go down with the children and only the
      others stay at the node. */
  lemma TreeFormats(m: map<Formatter, seq<Range>>, order: seq<Formatter>, s: nat, e: nat, t: FormatTree)
    requires KeyOrder(m, order)
    requires t == Tree(m, order, s, e)
    ensures t.formats.Some? ==>
              && |t.formats.value| > 0
              && forall k :: 0 <= k < |t.formats.value| ==> t.formats.value[k].start == s && t.formats.value[k].end == e
    ensures t.formats.Some? && t.children.Some? ==>
              forall k :: 0 <= k < |t.formats.value| ==> !t.formats.value[k].formatter.columned
  {
    var copy := ExtractMap(m, s, e);
    var st := ScanAll(Pairs(copy, order), s, e);
    CopyFacts(m, order, s, e);
    PairsWithin(copy, order, s, e);
    ScanFacts(Pairs(copy, order), s, e, st);
  }
}
