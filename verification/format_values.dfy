/**
 * Format values and formatter identities of the rich-text format model
 * (packages/core/src/model/format.ts).
 */
module FormatValues {
  import opened Wrappers

  /** A JavaScript primitive that may be a format value or a record field.
      Numbers are only ever compared for equality, so `real` stands in for
      an IEEE double. */
  datatype Prim = Str(s: string) | Num(n: real) | Bool(b: bool)

  /** A non-void format value: a primitive or a flat record of primitives. */
  datatype Value = Atom(p: Prim) | Record(fields: map<string, Prim>)

  /** `null` and `undefined` are both the void value `None`. */
  type FormatValue = Option<Value>

  /** A formatter key. The source keys its map by object identity; `id`
      distinguishes two formatters that agree on every other field. */
  datatype Formatter = Formatter(id: nat, name: string, isBlock: bool, columned: bool)

  predicate IsVoid(v: FormatValue)
  {
    v.None?
  }

  /** `Format.equal`: identical values, or two records with as many keys as
      each other whose every left key is a right key holding the same value. */
  predicate Equal(left: Value, right: Value)
  {
    || left == right
    || (&& left.Record? && right.Record?
        && |left.fields.Keys| == |right.fields.Keys|
        && forall k :: k in left.fields ==> k in right.fields && right.fields[k] == left.fields[k])
  }

  /** Value equality as `toRanges` applies it between the open range's
      value and the next item: a void left side (no open range) never
      equals anything. */
  predicate ValueEqual(left: FormatValue, right: FormatValue)
  {
    left.Some? && right.Some? && Equal(left.value, right.value)
  }

  lemma SameSizeSubsetIsEqual<K>(a: set<K>, b: set<K>)
    requires a <= b && |a| == |b|
    ensures a == b
  {
    var rest := b - a;
    assert a !! rest;
    assert b == a + rest;
    assert |b| == |a| + |rest|;
  }

  /** The key-by-key comparison of `equal` is exactly structural equality:
      two records with the same number of keys, where every left key maps
      to the same value on the right, are the same record. */
  lemma EqualIsStructural(left: Value, right: Value)
    ensures Equal(left, right) <==> left == right
  {
    if left.Record? && right.Record? && Equal(left, right) {
      SameSizeSubsetIsEqual(left.fields.Keys, right.fields.Keys);
    }
  }
}
