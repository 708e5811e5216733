/** The prefix test shared by every exclude predicate: a record is kept when
    its identifier starts with one of the filters. */
module PrefixFilter {

  /** Java's `id.startsWith(prefix)`. */
  predicate StartsWith(id: string, prefix: string)
  {
    prefix <= id
  }

  /** Some filter is a prefix of `id`. */
  predicate StartsWithAny(filters: set<string>, id: string)
  {
    exists f | f in filters :: StartsWith(id, f)
  }

  /** Enlarging the filter set can only turn "exclude" into "keep". */
  lemma StartsWithAnyMonotone(filters: set<string>, more: set<string>, id: string)
    requires filters <= more
    ensures StartsWithAny(filters, id) ==> StartsWithAny(more, id)
  {
  }

  /** A filter of length n keeps exactly the identifiers whose first n characters it is. */
  lemma StartsWithLength(id: string, prefix: string)
    ensures StartsWith(id, prefix) <==> |prefix| <= |id| && id[..|prefix|] == prefix
  {
  }
}
