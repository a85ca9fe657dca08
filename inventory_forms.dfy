/** The Django app's forms (the name cleaners of categories and sessions, the item form's
    required category) and the first, column-scanning version of the spreadsheet import that
    sits beside them. */
module InventoryForms {
  import opened Wrappers
  import opened Text
  import opened Spreadsheet

  const CategoryExists := "A category with this name already exists."
  const SessionExists := "A session with this name already exists."
  const FieldRequired := "This field is required."

  /** `CategoryForm.clean_name`: the name stripped and in capitals, refused when a category of
      that name is stored (`existing` are the stored names). */
  function CleanCategoryName(name: string, existing: seq<string>): (r: Result<string>)
    ensures r.Success? <==> ToUpper(PyStrip(name)) !in existing
    ensures r.Success? ==> r.value == ToUpper(PyStrip(name))
    ensures r.Failure? ==> r.error == CategoryExists
  {
    var cleaned := ToUpper(PyStrip(name));
    if cleaned in existing then Failure(CategoryExists) else Success(cleaned)
  }

  /** A cleaned category name has no lower-case ASCII letter and no surrounding spaces, and
      cleaning it again changes nothing. */
  lemma CategoryNameNormal(name: string)
    ensures var c := ToUpper(PyStrip(name));
            && (forall k :: 0 <= k < |c| ==> !('a' <= c[k] <= 'z'))
            && (c != [] ==> !IsPySpace(c[0]) && !IsPySpace(c[|c| - 1]))
            && ToUpper(PyStrip(c)) == c
  {
    var s := PyStrip(name);
    var c := ToUpper(s);
    StripEnds(name, IsPySpace);
    if c != [] {
      assert !IsPySpace(c[0]) && !IsPySpace(c[|c| - 1]);
    }
    StripUnchanged(c, IsPySpace);
    assert ToUpper(c) == c;
  }

  /** Names that differ only in case or surrounding spaces are the same category. */
  lemma CategoryNamesIgnoreCase()
    ensures CleanCategoryName(" wired mics ", ["WIRED MICS"]).Failure?
  {
    var n := " wired mics ";
    assert DropLeading(n, IsPySpace) == n[1..];
    assert DropTrailing(n[1..], IsPySpace) == n[1..|n| - 1];
    assert ToUpper(n[1..|n| - 1]) == "WIRED MICS";
  }

  /** `InventorySessionForm.clean_name`: the name stripped only, refused when a session of
      exactly that name is stored. */
  function CleanSessionName(name: string, existing: seq<string>): (r: Result<string>)
    ensures r.Success? <==> PyStrip(name) !in existing
    ensures r.Success? ==> r.value == PyStrip(name)
    ensures r.Failure? ==> r.error == SessionExists
  {
    var cleaned := PyStrip(name);
    if cleaned in existing then Failure(SessionExists) else Success(cleaned)
  }

  /** Session names keep their case: a name that differs from a stored one only in case is
      accepted as a new session. */
  lemma SessionNamesKeepCase()
    ensures CleanSessionName("summer 2025", ["Summer 2025"]) == Success("summer 2025")
  {
    StripUnchanged("summer 2025", IsPySpace);
    assert "summer 2025" != "Summer 2025";
  }

  /** `ItemForm`'s category field, which the form makes required. */
  function ItemFormCategory(choice: Option<nat>): (r: Result<nat>)
    ensures r.Success? <==> choice.Some?
    ensures choice.Some? ==> r.value == choice.value
    ensures choice.None? ==> r.error == FieldRequired
  {
    match choice
    case Some(id) => Success(id)
    case None => Failure(FieldRequired)
  }

  /** The first import's session name: the last semester column, or 'Import Session'. */
  function ImportSessionName(columns: seq<string>): (r: string)
    ensures SemesterColumns(columns) != [] ==> r == SemesterColumns(columns)[|SemesterColumns(columns)| - 1]
    ensures SemesterColumns(columns) == [] ==> r == "Import Session"
  {
    var semesters := SemesterColumns(columns);
    if semesters != [] then semesters[|semesters| - 1] else "Import Session"
  }

  /** This import's `has_count_data` for one cell: a number only; text never counts. */
  predicate IsNumeric(c: Cell) {
    c.Number?
  }

  /** Lines 107-123: a row without a name is skipped; one with no numeric semester cell and a
      name longer than three characters heads a category, named as written; one with a
      numeric cell below a category is an item; any other row is ignored. */
  function LegacyRowKind(row: Row, semesterColumns: seq<string>, hasCategory: bool): (r: RowKind)
    ensures r.CategoryHeader? <==>
              ItemName(row) != [] && |ItemName(row)| > 3
              && forall k :: 0 <= k < |semesterColumns| ==> !IsNumeric(Get(row, semesterColumns[k]))
    ensures r.Skipped? <==> ItemName(row) == []
    ensures r.ItemRow? <==>
              ItemName(row) != [] && hasCategory
              && exists k :: 0 <= k < |semesterColumns| && IsNumeric(Get(row, semesterColumns[k]))
    ensures r.CategoryHeader? ==> r.name == ItemName(row)
    ensures r.ItemRow? ==> r.name == ItemName(row)
  {
    var name := ItemName(row);
    if name == [] then Skipped
    else
      var hasCountData := exists k :: 0 <= k < |semesterColumns| && IsNumeric(Get(row, semesterColumns[k]));
      if !hasCountData && |name| > 3 then CategoryHeader(name)
      else if hasCountData && hasCategory then ItemRow(name)
      else Ignored
  }

  /** The value of the last numeric cell, or nothing when there is none. */
  function LastNumber(cells: seq<Cell>): (r: Option<int>)
    ensures r.Some? ==> exists k :: 0 <= k < |cells| && cells[k] == Number(r.value)
                          && forall j :: k < j < |cells| ==> !IsNumeric(cells[j])
    ensures r.None? <==> forall j :: 0 <= j < |cells| ==> !IsNumeric(cells[j])
  {
    if cells == [] then None
    else
      var n := |cells| - 1;
      if cells[n].Number? then Some(cells[n].value)
      else
        assert forall j :: 0 <= j < n ==> cells[..n][j] == cells[j];
        LastNumber(cells[..n])
  }

  /** Lines 129-134: the semester columns scanned from the last to the first, stopping at the
      first numeric cell; 0 when the row has none. The value also becomes the item's
      expected quantity. */
  method LatestCount(row: Row, semesterColumns: seq<string>) returns (latest: int)
    ensures latest == match LastNumber(Cells(row, semesterColumns)) case Some(v) => v case None => 0
  {
    ghost var cells := Cells(row, semesterColumns);
    latest := 0;
    var i := |semesterColumns|;
    while i > 0
      invariant 0 <= i <= |semesterColumns|
      invariant LastNumber(cells) == LastNumber(cells[..i])
      invariant latest == 0
    {
      var cell := Get(row, semesterColumns[i - 1]);
      LastNumberStep(cells, i);
      if cell.Number? {
        latest := cell.value;
        return;
      }
      i := i - 1;
    }
  }

  /** Looking at the cell before position `i` either finds the number or moves on. */
  lemma LastNumberStep(cells: seq<Cell>, i: int)
    requires 0 < i <= |cells|
    ensures LastNumber(cells[..i]) == if cells[i - 1].Number? then Some(cells[i - 1].value) else LastNumber(cells[..i - 1])
  {
    assert cells[..i][..i - 1] == cells[..i - 1];
  }
}
