/** The Django app's import and analysis helpers: the trend over an item's recent terms, the
    five-way comparison of two terms, how the spreadsheet import reads count cells and
    category rows, the counters of its historical-count writes, and the term it files the
    import session under. */
module InventoryUtils {
  import opened Wrappers
  import opened Text
  import opened Collections
  import opened Spreadsheet
  import Model
  import Terms
  import InventoryModels

  // ---------------------------------------------------------------------------------------
  // Trend analysis

  /** One entry of an item's count history: the term's name and the quantity counted in it.
      The history arrives in the order `get_count_history()` gives, which is not part of this
      model. */
  datatype TermCount = TermCount(termName: string, countedQuantity: nat)

  datatype Direction = Increasing | Decreasing | Stable

  datatype Trend = Trend(terms: seq<string>, counts: seq<nat>, trend: Direction, change: int,
                         latestCount: nat, previousCount: nat)

  /** Python's `xs[:n]`, including a negative `n` counted from the end. */
  function Head<T>(xs: seq<T>, n: int): (r: seq<T>)
    ensures |r| <= |xs| && r == xs[..|r|]
    ensures n >= 0 ==> |r| == if n < |xs| then n else |xs|
    ensures n < 0 ==> |r| == if -n < |xs| then |xs| + n else 0
  {
    if n >= 0 then (if n < |xs| then xs[..n] else xs)
    else if -n < |xs| then xs[..|xs| + n] else []
  }

  function Quantities(history: seq<TermCount>): (r: seq<nat>)
    ensures |r| == |history| && forall k :: 0 <= k < |history| ==> r[k] == history[k].countedQuantity
  {
    seq(|history|, k requires 0 <= k < |history| => history[k].countedQuantity)
  }

  function TermNames(history: seq<TermCount>): (r: seq<string>)
    ensures |r| == |history| && forall k :: 0 <= k < |history| ==> r[k] == history[k].termName
  {
    seq(|history|, k requires 0 <= k < |history| => history[k].termName)
  }

  /** `get_trend_analysis(item, num_terms)`: nothing below two counts; otherwise the direction
      and size of the change from the first to the last count considered. */
  function GetTrendAnalysis(history: seq<TermCount>, numTerms: int): Option<Trend> {
    var recent := Head(history, numTerms);
    if |recent| < 2 then None
    else
      var counts := Quantities(recent);
      var terms := TermNames(recent);
      var trend := if |counts| > 1 then
                     (if counts[|counts| - 1] > counts[0] then Increasing
                      else if counts[|counts| - 1] < counts[0] then Decreasing else Stable)
                   else Stable;
      var change: int := if |counts| > 1 then counts[|counts| - 1] as int - counts[0] else 0;
      Some(Trend(terms, counts, trend, change,
                 if |counts| > 0 then counts[|counts| - 1] else 0,
                 if |counts| > 1 then counts[|counts| - 2] else 0))
  }

  /** There is a trend exactly when at least two counts are considered; then the direction is
      the sign of the change, the change runs from the first considered count to the last,
      and the latest and previous counts are the last two considered, in history order. */
  lemma TrendMeaning(history: seq<TermCount>, numTerms: int)
    ensures var recent := Head(history, numTerms);
            GetTrendAnalysis(history, numTerms).None? <==> |recent| < 2
    ensures var r := GetTrendAnalysis(history, numTerms);
            r.Some? ==>
              var recent := Head(history, numTerms);
              var n := |recent|;
              && 2 <= n <= |history|
              && (numTerms >= 0 ==> n <= numTerms)
              && r.value.change == recent[n - 1].countedQuantity - recent[0].countedQuantity
              && (r.value.trend == Increasing <==> r.value.change > 0)
              && (r.value.trend == Decreasing <==> r.value.change < 0)
              && (r.value.trend == Stable <==> r.value.change == 0)
              && r.value.latestCount == history[n - 1].countedQuantity
              && r.value.previousCount == history[n - 2].countedQuantity
  {
    var recent := Head(history, numTerms);
    if |recent| >= 2 {
      assert recent[|recent| - 1] == history[|recent| - 1];
      assert recent[|recent| - 2] == history[|recent| - 2];
    }
  }

  // ---------------------------------------------------------------------------------------
  // Comparison of two terms

  /** An item with a count in either term, and its counts in the two terms
      (`get_count_for_term`, which is not part of this model, gives them). */
  datatype Compared = Compared(item: InventoryModels.Item, count1: nat, count2: nat)

  datatype Bucket = ItemsAdded | ItemsRemoved | ItemsIncreased | ItemsDecreased | ItemsStable

  /** The `if`/`elif` chain that files an item under one list of the report. */
  function Classify(count1: nat, count2: nat): Bucket {
    if count1 == 0 && count2 > 0 then ItemsAdded
    else if count1 > 0 && count2 == 0 then ItemsRemoved
    else if count2 > count1 then ItemsIncreased
    else if count2 < count1 then ItemsDecreased
    else ItemsStable
  }

  /** What each list holds, independently of the order of the tests: added is 0 to more,
      removed is more to 0, increased and decreased are changes between two non-zero counts,
      and stable is an unchanged count, 0 to 0 included. */
  lemma ClassifyExactly(count1: nat, count2: nat)
    ensures Classify(count1, count2) == ItemsAdded <==> count1 == 0 && count2 > 0
    ensures Classify(count1, count2) == ItemsRemoved <==> count1 > 0 && count2 == 0
    ensures Classify(count1, count2) == ItemsIncreased <==> 0 < count1 < count2
    ensures Classify(count1, count2) == ItemsDecreased <==> 0 < count2 < count1
    ensures Classify(count1, count2) == ItemsStable <==> count1 == count2
  {
  }

  function InBucket(b: Bucket): Compared -> bool {
    (c: Compared) => Classify(c.count1, c.count2) == b
  }

  datatype ComparisonReport = ComparisonReport(term1: string, term2: string,
                                               added: seq<Compared>, removed: seq<Compared>, increased: seq<Compared>,
                                               decreased: seq<Compared>, stable: seq<Compared>)

  /** `generate_semester_comparison_report(term1, term2)`: `termNames` are the names of the
      stored academic terms. Nothing when either name is unknown; otherwise each compared item
      is appended, in order, to the list its counts select. */
  method GenerateComparison(termNames: seq<string>, term1: string, term2: string, compared: seq<Compared>)
    returns (r: Option<ComparisonReport>)
    ensures r.None? <==> term1 !in termNames || term2 !in termNames
    ensures r.Some? ==> r.value.term1 == term1 && r.value.term2 == term2
    ensures r.Some? ==> r.value.added == Filter(compared, InBucket(ItemsAdded))
    ensures r.Some? ==> r.value.removed == Filter(compared, InBucket(ItemsRemoved))
    ensures r.Some? ==> r.value.increased == Filter(compared, InBucket(ItemsIncreased))
    ensures r.Some? ==> r.value.decreased == Filter(compared, InBucket(ItemsDecreased))
    ensures r.Some? ==> r.value.stable == Filter(compared, InBucket(ItemsStable))
  {
    if term1 !in termNames || term2 !in termNames {
      return None;
    }
    var added, removed, increased, decreased, stable := [], [], [], [], [];
    var i := 0;
    while i < |compared|
      invariant 0 <= i <= |compared|
      invariant added == Filter(compared[..i], InBucket(ItemsAdded))
      invariant removed == Filter(compared[..i], InBucket(ItemsRemoved))
      invariant increased == Filter(compared[..i], InBucket(ItemsIncreased))
      invariant decreased == Filter(compared[..i], InBucket(ItemsDecreased))
      invariant stable == Filter(compared[..i], InBucket(ItemsStable))
    {
      assert compared[..i + 1] == compared[..i] + [compared[i]];
      added, removed, increased, decreased, stable :=
        FileItem(compared[..i], compared[i], added, removed, increased, decreased, stable);
      i := i + 1;
    }
    assert compared[..i] == compared;
    r := Some(ComparisonReport(term1, term2, added, removed, increased, decreased, stable));
  }

  /** One iteration of the loop: `c` is appended to the list its counts select. */
  method FileItem(prefix: seq<Compared>, c: Compared, added: seq<Compared>, removed: seq<Compared>,
                  increased: seq<Compared>, decreased: seq<Compared>, stable: seq<Compared>)
    returns (added': seq<Compared>, removed': seq<Compared>, increased': seq<Compared>,
             decreased': seq<Compared>, stable': seq<Compared>)
    requires added == Filter(prefix, InBucket(ItemsAdded))
    requires removed == Filter(prefix, InBucket(ItemsRemoved))
    requires increased == Filter(prefix, InBucket(ItemsIncreased))
    requires decreased == Filter(prefix, InBucket(ItemsDecreased))
    requires stable == Filter(prefix, InBucket(ItemsStable))
    ensures added' == Filter(prefix + [c], InBucket(ItemsAdded))
    ensures removed' == Filter(prefix + [c], InBucket(ItemsRemoved))
    ensures increased' == Filter(prefix + [c], InBucket(ItemsIncreased))
    ensures decreased' == Filter(prefix + [c], InBucket(ItemsDecreased))
    ensures stable' == Filter(prefix + [c], InBucket(ItemsStable))
  {
    FilterSnoc(prefix, c, InBucket(ItemsAdded));
    FilterSnoc(prefix, c, InBucket(ItemsRemoved));
    FilterSnoc(prefix, c, InBucket(ItemsIncreased));
    FilterSnoc(prefix, c, InBucket(ItemsDecreased));
    FilterSnoc(prefix, c, InBucket(ItemsStable));
    added', removed', increased', decreased', stable' := added, removed, increased, decreased, stable;
    if c.count1 == 0 && c.count2 > 0 {
      added' := added + [c];
    } else if c.count1 > 0 && c.count2 == 0 {
      removed' := removed + [c];
    } else if c.count2 > c.count1 {
      increased' := increased + [c];
    } else if c.count2 < c.count1 {
      decreased' := decreased + [c];
    } else {
      stable' := stable + [c];
    }
  }

  /** No compared item is lost or listed twice: the five lists together are exactly as long
      as the compared items (with `BucketMembership`, each item is in exactly one list). */
  lemma {:induction false} ComparisonPartition(compared: seq<Compared>)
    ensures |Filter(compared, InBucket(ItemsAdded))| + |Filter(compared, InBucket(ItemsRemoved))|
            + |Filter(compared, InBucket(ItemsIncreased))| + |Filter(compared, InBucket(ItemsDecreased))|
            + |Filter(compared, InBucket(ItemsStable))| == |compared|
    decreases |compared|
  {
    if compared != [] {
      var n := |compared| - 1;
      var front, c := compared[..n], compared[n];
      assert compared == front + [c];
      ComparisonPartition(front);
      FilterSnoc(front, c, InBucket(ItemsAdded));
      FilterSnoc(front, c, InBucket(ItemsRemoved));
      FilterSnoc(front, c, InBucket(ItemsIncreased));
      FilterSnoc(front, c, InBucket(ItemsDecreased));
      FilterSnoc(front, c, InBucket(ItemsStable));
    }
  }

  /** An item is in a list exactly when its counts select that list. */
  lemma BucketMembership(compared: seq<Compared>, c: Compared, b: Bucket)
    requires c in compared
    ensures c in Filter(compared, InBucket(b)) <==> Classify(c.count1, c.count2) == b
  {
    var i :| 0 <= i < |compared| && compared[i] == c;
    if c in Filter(compared, InBucket(b)) {
      var k :| 0 <= k < |Filter(compared, InBucket(b))| && Filter(compared, InBucket(b))[k] == c;
    }
  }

  // ---------------------------------------------------------------------------------------
  // Reading the spreadsheet

  /** `has_count_data` for one cell: a number, or a text of ASCII digits only (`isdigit()`
      on the unstripped text) that does not strip to '', 'n/a' or 'N/A'. */
  predicate HasCountData(c: Cell) {
    match c
    case Empty => false
    case Number(_) => true
    case Text(s) => PyStrip(s) !in ["", "n/a", "N/A"] && s != [] && AllDigits(s)
  }

  /** A text cell holds count data exactly when it is a non-empty run of digits. */
  lemma TextCountData(s: string)
    ensures HasCountData(Text(s)) <==> s != [] && AllDigits(s)
  {
    if s != [] && AllDigits(s) {
      StripUnchanged(s, IsPySpace);
      assert s[0] != 'n' && s[0] != 'N';
    }
  }

  /** `int(float(t))` on an optionally signed run of ASCII digits; anything else counts as
      unparseable here. */
  function ParseNumber(t: string): Option<int> {
    if t != [] && AllDigits(t) then Some(DigitsValue(t))
    else if |t| >= 2 && t[0] == '+' && AllDigits(t[1..]) then Some(DigitsValue(t[1..]))
    else if |t| >= 2 && t[0] == '-' && AllDigits(t[1..]) then Some(0 - DigitsValue(t[1..]) as int)
    else None
  }

  /** The quantity a count cell contributes (lines 111-127): none for an empty cell, for a
      text that strips to 'n/a', 'na' or '' in any case, for a text that does not parse, and
      for a negative number. */
  function ParseCountCell(c: Cell): (r: Option<nat>)
    ensures c.Empty? ==> r.None?
    ensures c.Number? ==> (r.Some? <==> c.value >= 0) && (r.Some? ==> r.value == c.value)
    ensures c.Text? && ToLower(PyStrip(c.text)) in ["n/a", "na", ""] ==> r.None?
  {
    match c
    case Empty => None
    case Number(v) => if v >= 0 then Some(v) else None
    case Text(s) =>
      var t := PyStrip(s);
      if ToLower(t) in ["n/a", "na", ""] then None
      else match ParseNumber(t)
        case Some(v) => if v >= 0 then Some(v) else None
        case None => None
  }

  /** A quantity written out in digits, with any surrounding spaces, reads back as itself. */
  lemma CountCellRoundTrip(n: nat, pad: string)
    requires forall k :: 0 <= k < |pad| ==> IsPySpace(pad[k])
    ensures ParseCountCell(Text(pad + NatToString(n) + pad)) == Some(n)
  {
    var digits := NatToString(n);
    NatToStringValue(n);
    PadStrip(pad, digits);
    assert ToLower(digits)[0] == digits[0];
  }

  /** The not-available spellings read as no count whatever their case, and so does a cell of
      spaces only. */
  lemma CountCellNotAvailable(pad: string)
    requires forall k :: 0 <= k < |pad| ==> IsPySpace(pad[k])
    ensures ParseCountCell(Text("N/A")) == None && ParseCountCell(Text("Na")) == None
    ensures ParseCountCell(Text(pad)) == None
  {
    BlankStripsAway(pad);
    assert ToLower([]) == [];
  }

  /** Spaces around a string of digits are stripped away. */
  lemma PadStrip(pad: string, digits: string)
    requires forall k :: 0 <= k < |pad| ==> IsPySpace(pad[k])
    requires AllDigits(digits)
    ensures digits != [] ==> PyStrip(pad + digits + pad) == digits
  {
    if digits != [] {
      DropLeadingPad(pad, digits + pad);
      assert pad + digits + pad == pad + (digits + pad);
      DropTrailingPad(digits, pad);
    }
  }

  lemma {:induction false} DropLeadingPad(pad: string, rest: string)
    requires forall k :: 0 <= k < |pad| ==> IsPySpace(pad[k])
    requires rest != [] && IsDigit(rest[0])
    ensures DropLeading(pad + rest, IsPySpace) == rest
    decreases |pad|
  {
    if pad != [] {
      assert (pad + rest)[1..] == pad[1..] + rest;
      DropLeadingPad(pad[1..], rest);
    } else {
      assert pad + rest == rest;
      assert !IsPySpace(rest[0]);
    }
  }

  lemma {:induction false} DropTrailingPad(front: string, pad: string)
    requires forall k :: 0 <= k < |pad| ==> IsPySpace(pad[k])
    requires front != [] && IsDigit(front[|front| - 1])
    ensures DropTrailing(front + pad, IsPySpace) == front
    decreases |pad|
  {
    if pad != [] {
      var n := |pad| - 1;
      assert (front + pad)[..|front + pad| - 1] == front + pad[..n];
      DropTrailingPad(front, pad[..n]);
    } else {
      assert front + pad == front;
      assert !IsPySpace(front[|front| - 1]);
    }
  }

  lemma {:induction false} BlankStripsAway(pad: string)
    requires forall k :: 0 <= k < |pad| ==> IsPySpace(pad[k])
    ensures PyStrip(pad) == []
    decreases |pad|
  {
    if pad != [] {
      BlankStripsAway(pad[1..]);
    }
  }

  /** Lines 53-80: a row without a name is skipped; one with no count data in any semester
      column and a name longer than two characters heads a category, named in capitals; one
      with count data below a category is an item; any other row is ignored. */
  function ImportRowKind(row: Row, semesterColumns: seq<string>, hasCategory: bool): (r: RowKind)
    ensures r.Skipped? <==> ItemName(row) == []
    ensures r.CategoryHeader? <==>
              |ItemName(row)| > 2 && forall k :: 0 <= k < |semesterColumns| ==> !HasCountData(Get(row, semesterColumns[k]))
    ensures r.ItemRow? <==>
              ItemName(row) != [] && hasCategory && exists k :: 0 <= k < |semesterColumns| && HasCountData(Get(row, semesterColumns[k]))
    ensures r.CategoryHeader? ==> r.name == ToUpper(ItemName(row)) && |r.name| > 2
    ensures r.ItemRow? ==> r.name == ItemName(row)
  {
    var name := ItemName(row);
    if name == [] then Skipped
    else
      var hasCountData := exists k :: 0 <= k < |semesterColumns| && HasCountData(Get(row, semesterColumns[k]));
      if !hasCountData && |name| > 2 then CategoryHeader(ToUpper(name))
      else if hasCountData && hasCategory then ItemRow(name)
      else Ignored
  }

  // ---------------------------------------------------------------------------------------
  // Historical-count writes during the import

  /** `UniqueConstraint(fields=('item', 'academic_term'))`. */
  predicate UniqueItemTerm(counts: seq<InventoryModels.HistoricalCount>) {
    forall i, j :: 0 <= i < j < |counts| ==> counts[i].itemId != counts[j].itemId || counts[i].termId != counts[j].termId
  }

  function FindCount(counts: seq<InventoryModels.HistoricalCount>, itemId: nat, termId: nat): (r: Option<nat>)
    ensures r.Some? ==> r.value < |counts| && counts[r.value].itemId == itemId && counts[r.value].termId == termId
    ensures r.None? ==> forall k :: 0 <= k < |counts| ==> counts[k].itemId != itemId || counts[k].termId != termId
  {
    if counts == [] then None
    else
      var n := |counts| - 1;
      if counts[n].itemId == itemId && counts[n].termId == termId then Some(n)
      else FindCount(counts[..n], itemId, termId)
  }

  /** The historical-count table with the import's two counters. */
  class CountImport {
    var counts: seq<InventoryModels.HistoricalCount>
    var created: nat
    var updated: nat

    predicate Valid()
      reads this
    {
      UniqueItemTerm(counts)
    }

    constructor (counts: seq<InventoryModels.HistoricalCount>)
      requires UniqueItemTerm(counts)
      ensures Valid() && this.counts == counts && created == 0 && updated == 0
    {
      this.counts, created, updated := counts, 0, 0;
    }

    /** Lines 127-144 for a parsed quantity: `get_or_create` on (item, term) counts a new
        record as created; an existing one is rewritten, and counted as updated, only when
        its quantity differs. */
    method Record(itemId: nat, termId: nat, value: nat)
      requires Valid()
      modifies this
      ensures Valid()
      ensures FindCount(old(counts), itemId, termId).None? ==>
                counts == old(counts) + [InventoryModels.HistoricalCount(itemId, termId, value)]
                && created == old(created) + 1 && updated == old(updated)
      ensures FindCount(old(counts), itemId, termId).Some? ==> created == old(created)
      ensures var k := FindCount(old(counts), itemId, termId);
              k.Some? && old(counts)[k.value].countedQuantity == value ==>
                counts == old(counts) && updated == old(updated)
      ensures var k := FindCount(old(counts), itemId, termId);
              k.Some? && old(counts)[k.value].countedQuantity != value ==>
                counts == old(counts)[k.value := InventoryModels.HistoricalCount(itemId, termId, value)] && updated == old(updated) + 1
    {
      var k := FindCount(counts, itemId, termId);
      if k.None? {
        counts := counts + [InventoryModels.HistoricalCount(itemId, termId, value)];
        created := created + 1;
      } else if counts[k.value].countedQuantity != value {
        counts := counts[k.value := InventoryModels.HistoricalCount(itemId, termId, value)];
        updated := updated + 1;
      }
    }
  }

  // ---------------------------------------------------------------------------------------
  // The term of the import session

  /** An academic term as the import found it in a column header. */
  datatype Term = Term(term: Model.TermType, year: int)

  /** The position Python's `max` returns: the first element whose key no other exceeds. */
  function FirstMaxIndex(terms: seq<Term>, key: Term -> int): (k: nat)
    requires terms != []
    ensures k < |terms|
    ensures forall j :: 0 <= j < |terms| ==> key(terms[j]) <= key(terms[k])
    ensures forall j :: 0 <= j < k ==> key(terms[j]) < key(terms[k])
  {
    if |terms| == 1 then 0
    else
      var n := |terms| - 1;
      var k := FirstMaxIndex(terms[..n], key);
      if key(terms[n]) > key(terms[..n][k]) then n else k
  }

  /** Where a season's code falls in alphabetical order: FALL, SPRING, SUMMER, WINTER. */
  function CodeOrder(t: Model.TermType): int {
    match t
    case Fall => 0
    case Spring => 1
    case Summer => 2
    case Winter => 3
  }

  /** The tuple `(t.year, t.term)` as one number. */
  function AsWrittenKey(t: Term): int {
    t.year * 4 + CodeOrder(t.term)
  }

  /** Python compares the tuples by year, then by code string; the number orders terms the
      same way. */
  lemma AsWrittenKeyIsTupleOrder(a: Term, b: Term)
    ensures AsWrittenKey(a) < AsWrittenKey(b) <==>
              a.year < b.year || (a.year == b.year && Model.TermCode(a.term) != Model.TermCode(b.term)
                                  && StringLe(Model.TermCode(a.term), Model.TermCode(b.term)))
  {
    var ca, cb := Model.TermCode(a.term), Model.TermCode(b.term);
    assert ca[1..][1..][1..][1..] == ca[4..];
    assert cb[1..][1..][1..][1..] == cb[4..];
  }

  /** Line 153 as written: `max(academic_terms.values(), key=lambda t: (t.year, t.term))`,
      or nothing without terms. */
  function LatestImportTermAsWritten(terms: seq<Term>): (r: Option<Term>)
    ensures r.Some? <==> terms != []
    ensures r.Some? ==> r.value in terms && forall j :: 0 <= j < |terms| ==> AsWrittenKey(terms[j]) <= AsWrittenKey(r.value)
  {
    if terms == [] then None else Some(terms[FirstMaxIndex(terms, AsWrittenKey)])
  }

  /** Spring of a year sorts after fall of the same year, so an import holding both files its
      session under the earlier term. */
  lemma LatestImportTermCounterexample()
    ensures LatestImportTermAsWritten([Term(Model.Fall, 2024), Term(Model.Spring, 2024)]) == Some(Term(Model.Spring, 2024))
    ensures LatestImportTerm([Term(Model.Fall, 2024), Term(Model.Spring, 2024)]) == Some(Term(Model.Fall, 2024))
  {
    var ts := [Term(Model.Fall, 2024), Term(Model.Spring, 2024)];
    assert ts[..1] == [Term(Model.Fall, 2024)];
  }

  /** Terms in calendar order: the year, then the season rank SPRING < SUMMER < FALL < WINTER. */
  function CalendarKey(t: Term): int {
    t.year * 4 + Model.Rank(t.term)
  }

  /** The latest term in calendar order, the first one among equals. */
  function LatestImportTerm(terms: seq<Term>): (r: Option<Term>)
    ensures r.Some? <==> terms != []
    ensures r.Some? ==> r.value in terms && forall j :: 0 <= j < |terms| ==> CalendarKey(terms[j]) <= CalendarKey(r.value)
  {
    if terms == [] then None else Some(terms[FirstMaxIndex(terms, CalendarKey)])
  }

  /** The calendar key follows the dates of the academic calendar: within a year, a date of a
      later spring, summer or fall range never belongs to an earlier-ranked season. */
  lemma CalendarKeyFollowsDates(m1: int, d1: int, m2: int, d2: int, year: int)
    requires Terms.ValidDate(m1, d1) && Terms.ValidDate(m2, d2)
    requires 116 <= 100 * m1 + d1 <= 100 * m2 + d2 <= 1215
    ensures CalendarKey(Term(Terms.GetCurrentTerm(m1, d1, year).term, year))
            <= CalendarKey(Term(Terms.GetCurrentTerm(m2, d2, year).term, year))
  {
    Terms.CalendarPartition(m1, d1);
    Terms.CalendarPartition(m2, d2);
  }
}
