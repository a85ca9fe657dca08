/** The one-off import script: reading season and year out of an inventory period's name,
    turning a category name into a document id, and the skip rules of its import loops. */
module ImportInventory {
  import opened Wrappers
  import opened Model
  import opened Text
  import opened Collections
  import Terms

  /** A character of the regular-expression class `\w`: `[A-Za-z0-9_]`. */
  predicate IsWordChar(c: char) {
    'A' <= c <= 'Z' || 'a' <= c <= 'z' || '0' <= c <= '9' || c == '_'
  }

  /** `\b(20\d{2}|19\d{2})\b` matches at position `i`. */
  predicate YearAt(s: string, i: int) {
    && 0 <= i && i + 4 <= |s|
    && ((s[i] == '2' && s[i + 1] == '0') || (s[i] == '1' && s[i + 1] == '9'))
    && IsDigit(s[i + 2]) && IsDigit(s[i + 3])
    && (i == 0 || !IsWordChar(s[i - 1]))
    && (i + 4 == |s| || !IsWordChar(s[i + 4]))
  }

  /** The leftmost match of the year pattern at or after `from`. */
  function FindYear(s: string, from: nat): (r: Option<nat>)
    ensures r.Some? ==> from <= r.value && YearAt(s, r.value)
    ensures r.Some? ==> forall j :: from <= j < r.value ==> !YearAt(s, j)
    ensures r.None? ==> forall j :: from <= j ==> !YearAt(s, j)
    decreases |s| - from
  {
    if from + 4 > |s| then None
    else if YearAt(s, from) then Some(from)
    else FindYear(s, from + 1)
  }

  /** The value of the year matched at `i`: between 1900 and 2099. */
  function YearValue(s: string, i: nat): (year: int)
    requires YearAt(s, i)
    ensures 1900 <= year <= 2099
  {
    var w := s[i..i + 4];
    assert w[0] == s[i] && w[1] == s[i + 1] && w[2] == s[i + 2] && w[3] == s[i + 3];
    YearRange(w);
    DigitsValue(w)
  }

  /** Four digits starting 19 or 20 denote a year between 1900 and 2099. */
  lemma YearRange(w: string)
    requires |w| == 4 && AllDigits(w)
    requires (w[0] == '2' && w[1] == '0') || (w[0] == '1' && w[1] == '9')
    ensures 1900 <= DigitsValue(w) <= 2099
  {
    assert w[..3][..2] == w[..2] && w[..2][..1] == w[..1] && w[..1][..0] == [];
    assert DigitsValue(w[..1]) == DigitValue(w[0]);
    assert DigitsValue(w[..2]) == DigitValue(w[0]) * 10 + DigitValue(w[1]);
    assert DigitsValue(w[..3]) == DigitsValue(w[..2]) * 10 + DigitValue(w[2]);
    assert w[..4] == w;
  }

  /** The first of SPRING, SUMMER, FALL, WINTER that the text contains. */
  function SeasonIn(upper: string): (r: Option<TermType>)
    ensures r.Some? ==> Contains(upper, TermCode(r.value))
    ensures r.Some? ==> forall u :: Rank(u) < Rank(r.value) ==> !Contains(upper, TermCode(u))
    ensures r.None? <==> forall u :: !Contains(upper, TermCode(u))
  {
    if Contains(upper, "SPRING") then Some(Spring)
    else if Contains(upper, "SUMMER") then Some(Summer)
    else if Contains(upper, "FALL") then Some(Fall)
    else if Contains(upper, "WINTER") then Some(Winter)
    else None
  }

  /** The trimmed, upper-cased name the parser reads. */
  function Normalized(termName: string): string {
    Trim(ToUpper(termName))
  }

  /** `parseAcademicTerm(termName)`: the first standalone 19xx/20xx year of the trimmed,
      upper-cased name, and the first season word found, testing SPRING, SUMMER, FALL, WINTER
      in that order; `None` when either is missing. */
  function ParseAcademicTerm(termName: string): (r: Option<(TermType, int)>)
    ensures r.Some? ==> 1900 <= r.value.1 <= 2099
  {
    ParseNormalized(Normalized(termName))
  }

  /** The parser's work on the trimmed, upper-cased name. */
  function ParseNormalized(upper: string): (r: Option<(TermType, int)>)
    ensures r.Some? ==> 1900 <= r.value.1 <= 2099
  {
    match FindYear(upper, 0)
    case None => None
    case Some(i) =>
      var term := SeasonIn(upper);
      if term.None? then None else Some((term.value, YearValue(upper, i)))
  }

  /** A name parses exactly when it holds both a year and a season word. */
  lemma ParseSucceeds(termName: string)
    ensures ParseAcademicTerm(termName).Some? <==>
              (exists i :: YearAt(Normalized(termName), i)) && exists u :: Contains(Normalized(termName), TermCode(u))
  {
    var upper := Normalized(termName);
    if FindYear(upper, 0).Some? {
      assert YearAt(upper, FindYear(upper, 0).value);
    }
    if SeasonIn(upper).Some? {
      assert Contains(upper, TermCode(SeasonIn(upper).value));
    }
  }

  /** The season read is the first contained word in the order the parser tests them. */
  lemma ParseSeason(termName: string, t: TermType, y: int)
    requires ParseAcademicTerm(termName) == Some((t, y))
    ensures Contains(Normalized(termName), TermCode(t))
    ensures forall u :: Rank(u) < Rank(t) ==> !Contains(Normalized(termName), TermCode(u))
  {
  }

  /** The year pattern matches at `i` and nowhere before. */
  predicate FirstYearAt(s: string, i: int) {
    YearAt(s, i) && forall j :: 0 <= j < i ==> !YearAt(s, j)
  }

  /** The first match of the year pattern is at `i` and spells `y`. */
  predicate YearReadAt(s: string, i: int, y: int) {
    FirstYearAt(s, i) && y == DigitsValue(s[i..i + 4])
  }

  /** The year read is the one written at the leftmost match of the year pattern. */
  lemma ParseYear(termName: string, t: TermType, y: int)
    requires ParseAcademicTerm(termName) == Some((t, y))
    ensures exists i :: YearReadAt(Normalized(termName), i, y)
  {
    var upper := Normalized(termName);
    assert FindYear(upper, 0).Some? && y == YearValue(upper, FindYear(upper, 0).value);
    FirstYearValue(upper, y);
  }

  lemma FirstYearValue(s: string, y: int)
    requires FindYear(s, 0).Some? && y == YearValue(s, FindYear(s, 0).value)
    ensures exists i :: YearReadAt(s, i, y)
  {
    var i := FindYear(s, 0).value;
    assert y == DigitsValue(s[i..i + 4]);
    assert YearReadAt(s, i, y);
  }

  /** What the parser returns on a name that is already trimmed and upper case, once its
      year and season are known. */
  lemma ParseOf(s: string, i: nat, t: TermType)
    requires FindYear(s, 0) == Some(i)
    requires SeasonIn(s) == Some(t)
    ensures ParseNormalized(s) == Some((t, YearValue(s, i)))
  {
  }

  // ---------------------------------------------------------------------------------------
  // Display names parse back

  /** A display name is left alone by upper-casing and trimming. */
  lemma DisplayNameNormal(code: string, digits: string)
    requires |code| >= 1 && |digits| >= 1 && AllDigits(digits)
    requires forall k :: 0 <= k < |code| ==> 'A' <= code[k] <= 'Z'
    ensures Normalized(code + " " + digits) == code + " " + digits
  {
    var s := code + " " + digits;
    forall k | 0 <= k < |s| ensures UpperDigitOrSpace(s[k]) {
      if k < |code| {
        assert s[k] == code[k];
      } else if k > |code| {
        assert s[k] == digits[k - |code| - 1];
      }
    }
    assert s[0] == code[0] && s[|s| - 1] == digits[|digits| - 1];
    NormalizedFixes(s);
  }

  predicate UpperDigitOrSpace(c: char) {
    'A' <= c <= 'Z' || IsDigit(c) || c == ' '
  }

  /** Upper-casing and trimming leave alone a text of capitals, digits and inner spaces. */
  lemma NormalizedFixes(s: string)
    requires s != [] && s[0] != ' ' && s[|s| - 1] != ' '
    requires forall k :: 0 <= k < |s| ==> UpperDigitOrSpace(s[k])
    ensures Normalized(s) == s
  {
    assert ToUpper(s) == s;
    StripUnchanged(s, IsJsSpace);
  }

  /** The year of a display name is found right after the space. */
  lemma DisplayNameYear(code: string, digits: string)
    requires |digits| == 4 && AllDigits(digits)
    requires (digits[0] == '1' && digits[1] == '9') || (digits[0] == '2' && digits[1] == '0')
    requires forall k :: 0 <= k < |code| ==> 'A' <= code[k] <= 'Z'
    ensures FindYear(code + " " + digits, 0) == Some(|code| + 1)
    ensures (code + " " + digits)[|code| + 1..] == digits
  {
    var s := code + " " + digits;
    var n := |code|;
    assert s[n] == ' ';
    assert forall k :: 0 <= k < 4 ==> s[n + 1 + k] == digits[k];
    assert YearAt(s, n + 1);
    forall j | 0 <= j < n + 1 ensures !YearAt(s, j) {
      if j < n {
        assert s[j] == code[j];
      }
    }
    assert FindYear(s, 0) == Some(n + 1);
    assert s[n + 1..] == digits;
  }

  /** A season word with a letter that the text lacks is not contained in it. */
  lemma MissingLetter(s: string, w: string, j: int)
    requires 0 <= j < |w| && w[j] !in s
    ensures !Contains(s, w)
  {
    if Contains(s, w) {
      ContainsChar(s, w, j);
    }
  }

  /** Only the display name's own season word occurs in it. */
  lemma DisplayNameSeason(t: TermType, digits: string)
    requires AllDigits(digits)
    ensures SeasonIn(TermCode(t) + " " + digits) == Some(t)
  {
    var code := TermCode(t);
    var s := code + " " + digits;
    ContainsPrefix(code, " " + digits);
    assert code + (" " + digits) == s;
    forall u | Rank(u) < Rank(t) ensures !Contains(s, TermCode(u)) {
      var w := TermCode(u);
      var j := if u == Spring then 1 else 0;
      forall k | 0 <= k < |s| ensures s[k] != w[j] {
        if k < |code| {
          assert s[k] == code[k];
        } else if k > |code| {
          assert s[k] == digits[k - |code| - 1];
        }
      }
      MissingLetter(s, w, j);
    }
  }

  /** The display name of a term of the 1900s or 2000s parses back to that term. */
  lemma DisplayNameParses(t: TermType, y: int)
    requires 1900 <= y <= 2099
    ensures ParseAcademicTerm(Terms.TermDisplayName(t, y)) == Some((t, y))
  {
    YearDigits(y);
    CodeYearParses(t, NatToString(y));
  }

  lemma CodeYearParses(t: TermType, digits: string)
    requires |digits| == 4 && AllDigits(digits)
    requires (digits[0] == '1' && digits[1] == '9') || (digits[0] == '2' && digits[1] == '0')
    ensures ParseAcademicTerm(TermCode(t) + " " + digits) == Some((t, DigitsValue(digits)))
  {
    var s := TermCode(t) + " " + digits;
    DisplayNameNormal(TermCode(t), digits);
    CodeYearParsesNormalized(t, digits);
    ParseFromNormalized(s, (t, DigitsValue(digits)));
  }

  lemma ParseFromNormalized(s: string, v: (TermType, int))
    requires Normalized(s) == s && ParseNormalized(s) == Some(v)
    ensures ParseAcademicTerm(s) == Some(v)
  {
  }

  lemma CodeYearParsesNormalized(t: TermType, digits: string)
    requires |digits| == 4 && AllDigits(digits)
    requires (digits[0] == '1' && digits[1] == '9') || (digits[0] == '2' && digits[1] == '0')
    ensures ParseNormalized(TermCode(t) + " " + digits) == Some((t, DigitsValue(digits)))
  {
    var s := TermCode(t) + " " + digits;
    DisplayNameYear(TermCode(t), digits);
    DisplayNameSeason(t, digits);
    ParseOf(s, |TermCode(t)| + 1, t);
    YearValueAt(s, digits, |TermCode(t)|);
  }

  lemma YearValueAt(s: string, digits: string, n: nat)
    requires |digits| == 4 && AllDigits(digits) && n + 5 == |s| && s[n + 1..] == digits
    requires YearAt(s, n + 1)
    ensures YearValue(s, n + 1) == DigitsValue(digits)
  {
    assert s[n + 1..n + 5] == digits;
  }

  // ---------------------------------------------------------------------------------------
  // Category ids

  /** `.replace(/\//g, '_')`. */
  function ReplaceSlashes(s: string): (r: string)
    ensures |r| == |s|
    ensures forall k :: 0 <= k < |s| ==> r[k] == (if s[k] == '/' then '_' else s[k])
  {
    seq(|s|, k requires 0 <= k < |s| => if s[k] == '/' then '_' else s[k])
  }

  /** `.replace(/[^a-zA-Z0-9_]/g, '_')`. */
  function ReplaceInvalid(s: string): (r: string)
    ensures |r| == |s|
    ensures forall k :: 0 <= k < |s| ==> r[k] == (if IsWordChar(s[k]) then s[k] else '_')
  {
    seq(|s|, k requires 0 <= k < |s| => if IsWordChar(s[k]) then s[k] else '_')
  }

  predicate NoDoubleUnderscore(s: string) {
    forall k :: 0 <= k < |s| - 1 ==> !(s[k] == '_' && s[k + 1] == '_')
  }

  /** `.replace(/_+/g, '_')`: each run of underscores becomes one. */
  function CollapseUnderscores(s: string): (r: string)
    ensures |r| <= |s|
    ensures NoDoubleUnderscore(r)
    ensures forall k :: 0 <= k < |r| ==> r[k] in s
    ensures s != [] ==> r != [] && r[0] == s[0] && r[|r| - 1] == s[|s| - 1]
  {
    if |s| <= 1 then s
    else if s[0] == '_' && s[1] == '_' then CollapseUnderscores(s[1..])
    else
      var rest := CollapseUnderscores(s[1..]);
      assert forall k :: 0 <= k < |rest| ==> rest[k] in s[1..];
      [s[0]] + rest
  }

  /** `.replace(/^_|_$/g, '')`: one leading and one trailing underscore removed. */
  function StripUnderscores(s: string): (r: string)
    ensures |r| <= |s|
    ensures NoDoubleUnderscore(s) ==> r == [] || (r[0] != '_' && r[|r| - 1] != '_')
    ensures NoDoubleUnderscore(s) ==> NoDoubleUnderscore(r)
    ensures forall k :: 0 <= k < |r| ==> r[k] in s
  {
    var a := if s != [] && s[0] == '_' then s[1..] else s;
    var b := if a != [] && a[|a| - 1] == '_' then a[..|a| - 1] else a;
    assert forall k :: 0 <= k < |b| ==> b[k] in a;
    assert forall k :: 0 <= k < |a| ==> a[k] in s;
    b
  }

  predicate IsIdChar(c: char) {
    'A' <= c <= 'Z' || '0' <= c <= '9' || c == '_'
  }

  /** `cleanCategoryName(name)`. */
  function CleanCategoryName(name: string): (r: string)
    ensures forall k :: 0 <= k < |r| ==> IsIdChar(r[k])
    ensures r == [] || (r[0] != '_' && r[|r| - 1] != '_')
    ensures NoDoubleUnderscore(r)
  {
    var u := ReplaceInvalid(ReplaceSlashes(ToUpper(name)));
    assert forall k :: 0 <= k < |u| ==> IsIdChar(u[k]);
    StripUnderscores(CollapseUnderscores(u))
  }

  lemma {:induction false} CollapseFixes(s: string)
    requires NoDoubleUnderscore(s)
    ensures CollapseUnderscores(s) == s
  {
    if |s| > 1 {
      CollapseFixes(s[1..]);
      assert s == [s[0]] + s[1..];
    }
  }

  /** Cleaning an already clean id changes nothing. */
  lemma CleanIdempotent(name: string)
    ensures CleanCategoryName(CleanCategoryName(name)) == CleanCategoryName(name)
  {
    var r := CleanCategoryName(name);
    assert ToUpper(r) == r;
    assert ReplaceSlashes(r) == r;
    assert ReplaceInvalid(r) == r;
    CollapseFixes(r);
  }

  // ---------------------------------------------------------------------------------------
  // The import loops

  /** The term document the script writes for a parsed period, under the period's own name. */
  function TermDoc(termName: string, parsed: (TermType, int), now: int): AcademicTerm {
    AcademicTerm(termName, termName, parsed.0, parsed.1, now)
  }

  /** A reader of period names; the loop uses `ParseAcademicTerm`. */
  type Parser = string -> Option<(TermType, int)>

  /** `collection('academicTerms').doc(name)` takes the name as a path below the collection,
      so a name holding '/' does not address a term document of that collection; the call
      throws and the loop's `catch` records the period as an error. */
  predicate UsableDocId(name: string) {
    '/' !in name
  }

  /** The periods that get a term: those whose names parse and are usable document ids. */
  predicate Importable(p: string, parse: Parser) {
    parse(p).Some? && UsableDocId(p)
  }

  /** The importable periods, as a set. */
  function ImportableNames(periods: seq<string>, parse: Parser): (r: set<string>)
    ensures forall p :: p in r <==> p in periods && Importable(p, parse)
  {
    if periods == [] then {}
    else
      var last := periods[|periods| - 1];
      var before := ImportableNames(periods[..|periods| - 1], parse);
      assert forall p :: p in periods <==> p in periods[..|periods| - 1] || p == last;
      if Importable(last, parse) then before + {last} else before
  }

  /** What the periods loop has produced: the term documents, the period-to-term-id map, the
      number of documents created, and the periods whose write threw, in order. */
  datatype TermImport = TermImport(terms: map<Id, AcademicTerm>, termMap: map<string, Id>, created: nat,
                                   failed: seq<string>)

  /** One iteration of the periods loop: an unparseable name is skipped; a parsed name that is
      no usable document id throws and is recorded as failed; otherwise the period's term
      document is created unless one already exists under that id, and either way the period
      maps to its own name as term id. */
  function ImportTermStep(st: TermImport, termName: string, now: int, parse: Parser): TermImport {
    match parse(termName)
    case None => st
    case Some(parsed) =>
      if !UsableDocId(termName) then st.(failed := st.failed + [termName])
      else if termName in st.terms then st.(termMap := st.termMap[termName := termName])
      else TermImport(st.terms[termName := TermDoc(termName, parsed, now)],
                      st.termMap[termName := termName], st.created + 1, st.failed)
  }

  /** The periods loop over all of `periods`, starting from the existing term documents. */
  function ImportedTerms(periods: seq<string>, existing: map<Id, AcademicTerm>, now: int, parse: Parser): TermImport {
    if periods == [] then TermImport(existing, map[], 0, [])
    else ImportTermStep(ImportedTerms(periods[..|periods| - 1], existing, now, parse), periods[|periods| - 1], now, parse)
  }

  lemma ImportedTermsSnoc(periods: seq<string>, i: nat, existing: map<Id, AcademicTerm>, now: int, parse: Parser)
    requires i < |periods|
    ensures ImportedTerms(periods[..i + 1], existing, now, parse)
            == ImportTermStep(ImportedTerms(periods[..i], existing, now, parse), periods[i], now, parse)
  {
    assert periods[..i + 1][..i] == periods[..i];
  }

  lemma ImportTermStepCases(st: TermImport, termName: string, now: int, parse: Parser, parsed: Option<(TermType, int)>)
    requires parse(termName) == parsed
    ensures var st' := ImportTermStep(st, termName, now, parse);
            && (parsed.None? ==> st' == st)
            && (parsed.Some? && !UsableDocId(termName) ==> st' == st.(failed := st.failed + [termName]))
            && (parsed.Some? && UsableDocId(termName) && termName in st.terms ==>
                  st' == st.(termMap := st.termMap[termName := termName]))
            && (parsed.Some? && UsableDocId(termName) && termName !in st.terms ==>
                  st' == TermImport(st.terms[termName := TermDoc(termName, parsed.value, now)],
                                    st.termMap[termName := termName], st.created + 1, st.failed))
  {
  }

  /** The periods loop of `importInventory`. */
  method ImportTerms(periods: seq<string>, existing: map<Id, AcademicTerm>, now: int)
    returns (terms: map<Id, AcademicTerm>, termMap: map<string, Id>, created: nat, failed: seq<string>)
    ensures TermImport(terms, termMap, created, failed) == ImportedTerms(periods, existing, now, ParseAcademicTerm)
  {
    terms, termMap, created, failed := existing, map[], 0, [];
    var i := 0;
    while i < |periods|
      invariant 0 <= i <= |periods|
      invariant TermImport(terms, termMap, created, failed) == ImportedTerms(periods[..i], existing, now, ParseAcademicTerm)
    {
      var termName := periods[i];
      ImportedTermsSnoc(periods, i, existing, now, ParseAcademicTerm);
      var parsed := ParseAcademicTerm(termName);
      ImportTermStepCases(TermImport(terms, termMap, created, failed), termName, now, ParseAcademicTerm, parsed);
      if parsed.Some? {
        if '/' in termName {
          failed := failed + [termName];
        } else {
          if termName !in terms {
            terms := terms[termName := TermDoc(termName, parsed.value, now)];
            created := created + 1;
          }
          termMap := termMap[termName := termName];
        }
      }
      i := i + 1;
    }
    assert periods[..i] == periods;
  }

  /** The period-to-term-id map covers exactly the importable periods, each mapped to itself. */
  lemma {:induction false} ImportedTermMap(periods: seq<string>, existing: map<Id, AcademicTerm>, now: int, parse: Parser)
    ensures var st := ImportedTerms(periods, existing, now, parse);
            && st.termMap.Keys == ImportableNames(periods, parse)
            && forall p :: p in st.termMap ==> st.termMap[p] == p
  {
    if periods != [] {
      var prefix, termName := periods[..|periods| - 1], periods[|periods| - 1];
      assert periods == prefix + [termName];
      ImportedTermMap(prefix, existing, now, parse);
      ImportableNamesSnoc(prefix, termName, parse);
    }
  }

  /** The failed periods are, in order, exactly those whose names parse but are no usable
      document id. */
  lemma {:induction false} ImportedTermFailures(periods: seq<string>, existing: map<Id, AcademicTerm>, now: int, parse: Parser)
    ensures ImportedTerms(periods, existing, now, parse).failed
            == Filter(periods, (p: string) => parse(p).Some? && !UsableDocId(p))
  {
    if periods != [] {
      var prefix, termName := periods[..|periods| - 1], periods[|periods| - 1];
      ImportedTermFailures(prefix, existing, now, parse);
      ImportTermStepCases(ImportedTerms(prefix, existing, now, parse), termName, now, parse, parse(termName));
    }
  }

  /** Existing term documents are never rewritten, and each importable period without a
      document gets one, named after the period, with the season and year read from it. */
  lemma {:induction false} ImportedTermDocs(periods: seq<string>, existing: map<Id, AcademicTerm>, now: int, parse: Parser)
    ensures var st := ImportedTerms(periods, existing, now, parse);
            && st.terms.Keys == existing.Keys + st.termMap.Keys
            && (forall id :: id in existing ==> st.terms[id] == existing[id])
            && (forall p :: p in st.terms && p !in existing ==> IsImportedDoc(p, st.terms[p], now, parse))
  {
    if periods != [] {
      var prefix, termName := periods[..|periods| - 1], periods[|periods| - 1];
      ImportedTermDocs(prefix, existing, now, parse);
      ImportTermStepDocs(ImportedTerms(prefix, existing, now, parse), existing, termName, now, parse);
    }
  }

  lemma ImportTermStepDocs(st: TermImport, existing: map<Id, AcademicTerm>, termName: string, now: int, parse: Parser)
    requires st.terms.Keys == existing.Keys + st.termMap.Keys
    requires forall id :: id in existing ==> st.terms[id] == existing[id]
    requires forall p :: p in st.terms && p !in existing ==> IsImportedDoc(p, st.terms[p], now, parse)
    ensures var st' := ImportTermStep(st, termName, now, parse);
            && st'.terms.Keys == existing.Keys + st'.termMap.Keys
            && (forall id :: id in existing ==> st'.terms[id] == existing[id])
            && (forall p :: p in st'.terms && p !in existing ==> IsImportedDoc(p, st'.terms[p], now, parse))
  {
    var parsed := parse(termName);
    ImportTermStepCases(st, termName, now, parse, parsed);
    if parsed.Some? && termName !in st.terms {
      assert IsImportedDoc(termName, TermDoc(termName, parsed.value, now), now, parse);
    }
  }

  /** The document the loop writes for period `p`. */
  predicate IsImportedDoc(p: string, doc: AcademicTerm, now: int, parse: Parser) {
    parse(p).Some? && doc == TermDoc(p, parse(p).value, now)
  }

  /** The counter counts the term documents created. */
  lemma {:induction false} ImportedTermCount(periods: seq<string>, existing: map<Id, AcademicTerm>, now: int, parse: Parser)
    ensures var st := ImportedTerms(periods, existing, now, parse);
            existing.Keys <= st.terms.Keys && st.created == |st.terms.Keys - existing.Keys|
  {
    if periods != [] {
      var prefix, termName := periods[..|periods| - 1], periods[|periods| - 1];
      ImportedTermCount(prefix, existing, now, parse);
      ImportTermStepCount(ImportedTerms(prefix, existing, now, parse), existing, termName, now, parse);
    }
  }

  lemma ImportTermStepCount(st: TermImport, existing: map<Id, AcademicTerm>, termName: string, now: int, parse: Parser)
    requires existing.Keys <= st.terms.Keys && st.created == |st.terms.Keys - existing.Keys|
    ensures var st' := ImportTermStep(st, termName, now, parse);
            existing.Keys <= st'.terms.Keys && st'.created == |st'.terms.Keys - existing.Keys|
  {
    var parsed := parse(termName);
    ImportTermStepCases(st, termName, now, parse, parsed);
    if parsed.Some? && termName !in st.terms {
      NewKeyCounts(st.terms, existing, termName, TermDoc(termName, parsed.value, now));
    }
  }

  /** Adding a key that was absent adds one to the keys beyond `existing`. */
  lemma NewKeyCounts<V>(m: map<Id, V>, existing: map<Id, V>, k: Id, v: V)
    requires existing.Keys <= m.Keys && k !in m
    ensures existing.Keys <= m[k := v].Keys
    ensures |m[k := v].Keys - existing.Keys| == |m.Keys - existing.Keys| + 1
  {
    assert m[k := v].Keys - existing.Keys == (m.Keys - existing.Keys) + {k};
  }

  lemma ImportableNamesSnoc(prefix: seq<string>, termName: string, parse: Parser)
    ensures ImportableNames(prefix + [termName], parse)
            == ImportableNames(prefix, parse) + (if Importable(termName, parse) then {termName} else {})
  {
    assert (prefix + [termName])[..|prefix|] == prefix;
  }

  /** One cell of an item's `inventory_counts`: missing (`null`/`undefined`), not a number, or a quantity. */
  datatype Cell = Missing | NotANumber | Quantity(n: int)

  /** A cell that yields a count: it holds a number and its period has a (non-empty) term id. */
  function Kept(termMap: map<string, Id>): ((string, Cell)) -> bool {
    (c: (string, Cell)) => c.1.Quantity? && c.0 in termMap && termMap[c.0] != []
  }

  /** The count written for a kept cell, under a fresh document id. */
  function CountDoc(id: Id, itemId: Id, termMap: map<string, Id>, c: (string, Cell), now: int): HistoricalCount
    requires Kept(termMap)(c)
  {
    HistoricalCount(id, itemId, termMap[c.0], c.1.n, Some(now), None, None)
  }

  /** The counts loop of one item: one historical count per kept cell, in cell order, with
      fresh document ids taken in order; the statistics counter grows by the number written. */
  method ImportItemCounts(itemId: Id, cells: seq<(string, Cell)>, termMap: map<string, Id>,
                          freshIds: seq<Id>, now: int)
    returns (written: seq<HistoricalCount>, stat: nat)
    requires |freshIds| >= |cells|
    ensures stat == |written|
    ensures CountsWritten(written, Filter(cells, Kept(termMap)), itemId, termMap, freshIds, now)
  {
    written, stat := [], 0;
    var i := 0;
    while i < |cells|
      invariant 0 <= i <= |cells|
      invariant stat == |written|
      invariant CountsWritten(written, Filter(cells[..i], Kept(termMap)), itemId, termMap, freshIds, now)
    {
      var (termName, quantity) := cells[i];
      CountStep(cells, i, written, itemId, termMap, freshIds, now);
      KeptCell(termMap, cells[i]);
      if quantity.Missing? || quantity.NotANumber? {
        i := i + 1;
        continue;
      }
      if termName !in termMap || termMap[termName] == [] {
        i := i + 1;
        continue;
      }
      var termId := termMap[termName];
      written := written + [HistoricalCount(freshIds[stat], itemId, termId, quantity.n, Some(now), None, None)];
      stat := stat + 1;
      i := i + 1;
    }
    assert cells[..i] == cells;
  }

  /** `written` holds one count per kept cell, in order, under the fresh ids taken in order. */
  predicate CountsWritten(written: seq<HistoricalCount>, kept: seq<(string, Cell)>, itemId: Id,
                          termMap: map<string, Id>, freshIds: seq<Id>, now: int) {
    && |written| == |kept| <= |freshIds|
    && forall k :: 0 <= k < |written| ==>
         Kept(termMap)(kept[k]) && written[k] == CountDoc(freshIds[k], itemId, termMap, kept[k], now)
  }

  lemma KeptCell(termMap: map<string, Id>, c: (string, Cell))
    ensures Kept(termMap)(c) <==> c.1.Quantity? && c.0 in termMap && termMap[c.0] != []
  {
  }

  /** One turn of the counts loop: a kept cell appends its count, any other cell is skipped. */
  lemma CountStep(cells: seq<(string, Cell)>, i: nat, written: seq<HistoricalCount>, itemId: Id,
                  termMap: map<string, Id>, freshIds: seq<Id>, now: int)
    requires i < |cells| <= |freshIds|
    requires CountsWritten(written, Filter(cells[..i], Kept(termMap)), itemId, termMap, freshIds, now)
    ensures var kept' := Filter(cells[..i + 1], Kept(termMap));
            if Kept(termMap)(cells[i])
            then CountsWritten(written + [CountDoc(freshIds[|written|], itemId, termMap, cells[i], now)],
                               kept', itemId, termMap, freshIds, now)
            else CountsWritten(written, kept', itemId, termMap, freshIds, now)
  {
    assert cells[..i + 1] == cells[..i] + [cells[i]];
    FilterSnoc(cells[..i], cells[i], Kept(termMap));
    if Kept(termMap)(cells[i]) {
      CountsWrittenSnoc(written, Filter(cells[..i], Kept(termMap)), cells[i], itemId, termMap, freshIds, now);
    }
  }

  lemma CountsWrittenSnoc(written: seq<HistoricalCount>, kept: seq<(string, Cell)>, c: (string, Cell), itemId: Id,
                          termMap: map<string, Id>, freshIds: seq<Id>, now: int)
    requires CountsWritten(written, kept, itemId, termMap, freshIds, now)
    requires Kept(termMap)(c) && |kept| < |freshIds|
    ensures CountsWritten(written + [CountDoc(freshIds[|written|], itemId, termMap, c, now)], kept + [c],
                          itemId, termMap, freshIds, now)
  {
  }

  /** A cell is imported exactly when it holds a number for a period with a term id. */
  lemma ImportedCells(cells: seq<(string, Cell)>, termMap: map<string, Id>)
    ensures forall k :: 0 <= k < |cells| && cells[k].1.Quantity? && cells[k].0 in termMap && termMap[cells[k].0] != []
              ==> cells[k] in Filter(cells, Kept(termMap))
    ensures forall c :: c in Filter(cells, Kept(termMap)) ==> c in cells && c.1.Quantity? && c.0 in termMap
  {
    assert forall k :: 0 <= k < |cells| ==> (Kept(termMap)(cells[k]) <==> cells[k].1.Quantity? && cells[k].0 in termMap && termMap[cells[k].0] != []);
  }

  /** `item.location || null` and the like: an empty string is stored as absent. */
  function ImportedItem(id: Id, name: string, categoryName: string, location: Option<string>,
                        condition: Option<string>, serialFrequency: Option<string>, now: int): (item: Item)
    ensures item.id == id && item.name == name && item.createdAt == now
    ensures item.categoryId == CleanCategoryName(categoryName)
    ensures item.location.Some? <==> location.Some? && location.value != []
    ensures item.location.Some? ==> item.location == location
    ensures item.condition.Some? <==> condition.Some? && condition.value != []
    ensures item.condition.Some? ==> item.condition == condition
    ensures item.serialFrequency.Some? <==> serialFrequency.Some? && serialFrequency.value != []
    ensures item.serialFrequency.Some? ==> item.serialFrequency == serialFrequency
  {
    Item(id, name, CleanCategoryName(categoryName), OrNull(location), OrNull(condition), OrNull(serialFrequency), now)
  }
}
