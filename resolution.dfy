/** The pieces of count resolution shared by the dashboard and the reports page: finding a
    count's academic term, and the (year descending, season descending) comparator. */
module Resolution {
  import opened Wrappers
  import opened Model
  import opened Collections

  /** `terms.find((t) => t.id === id)`: the first term with that id. */
  function FindTerm(terms: seq<AcademicTerm>, id: Id): (r: Option<AcademicTerm>)
    ensures r.Some? ==> r.value in terms && r.value.id == id
    ensures r.None? <==> forall i :: 0 <= i < |terms| ==> terms[i].id != id
  {
    if terms == [] then None
    else if terms[0].id == id then Some(terms[0])
    else FindTerm(terms[1..], id)
  }

  /** The comparator `(a, b) => a.year !== b.year ? b.year - a.year : termOrder[b.term] - termOrder[a.term]`
      on two terms: negative when `a` should come first. */
  function TermCmp(a: AcademicTerm, b: AcademicTerm): int {
    if a.year != b.year then b.year - a.year else Rank(b.term) - Rank(a.term)
  }

  /** Position of a term in time: later (year, season) pairs have larger keys. */
  function TermKey(t: AcademicTerm): int {
    5 * t.year + Rank(t.term)
  }

  /** The comparator lets `a` precede `b` exactly when `a` is no earlier in time. */
  lemma TermCmpKey(a: AcademicTerm, b: AcademicTerm)
    ensures TermCmp(a, b) <= 0 <==> TermKey(a) >= TermKey(b)
    ensures TermCmp(a, b) == 0 <==> TermKey(a) == TermKey(b)
  {
  }

  /** Equal keys mean the same season of the same year. */
  lemma TermKeyInjective(a: AcademicTerm, b: AcademicTerm)
    ensures TermKey(a) == TermKey(b) <==> a.year == b.year && a.term == b.term
  {
  }

  /** The historical counts of one item, in table order (`historicalCounts.filter((hc) => hc.itemId === itemId)`). */
  function ItemCounts(counts: seq<HistoricalCount>, itemId: Id): (r: seq<HistoricalCount>)
    ensures forall i :: 0 <= i < |r| ==> r[i] in counts && r[i].itemId == itemId
    ensures forall i :: 0 <= i < |counts| && counts[i].itemId == itemId ==> counts[i] in r
    ensures r == [] <==> forall i :: 0 <= i < |counts| ==> counts[i].itemId != itemId
  {
    FilterEmpty(counts, ForItem(itemId));
    Filter(counts, ForItem(itemId))
  }

  function ForItem(itemId: Id): HistoricalCount -> bool {
    (c: HistoricalCount) => c.itemId == itemId
  }

  /** `countedQuantity || 0` on a whole number is the number itself; the `|| 0` only matters
      for NaN, which integer quantities do not have. */
  function Quantity(c: HistoricalCount): int {
    c.countedQuantity
  }
}
