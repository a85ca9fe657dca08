/** The inventory spreadsheet as the Django import reads it: named columns, and rows whose
    cells are empty, numeric or text. */
module Spreadsheet {
  import opened Text

  /** A cell as pandas hands it over: `Empty` for NaN/None, `Number` for an integral value,
      `Text` for a string. */
  datatype Cell = Empty | Number(value: int) | Text(text: string)

  /** A row maps column names to cells; a missing column reads as empty (`row.get(col)`). */
  type Row = map<string, Cell>

  function Get(row: Row, column: string): Cell {
    if column in row then row[column] else Empty
  }

  /** `str(cell)` for the cells a name column can hold. */
  function CellString(c: Cell): string {
    match c
    case Empty => "nan"
    case Number(v) => IntToString(v)
    case Text(s) => s
  }

  /** `str(row['Item']).strip() if pd.notna(row['Item']) else ''`. */
  function ItemName(row: Row): string {
    var c := Get(row, "Item");
    if c.Empty? then "" else PyStrip(CellString(c))
  }

  /** What an import makes of a row. */
  datatype RowKind = Skipped | CategoryHeader(name: string) | ItemRow(name: string) | Ignored

  /** The columns that describe an item rather than hold a semester's count. */
  const MetadataColumns: seq<string> := ["Item", "LOCATION", "CONDITION", "S/N - FREQUENCY"]

  /** `[col for col in df.columns if col not in metadata_columns]`. */
  function SemesterColumns(columns: seq<string>): (r: seq<string>)
    ensures forall k :: 0 <= k < |r| ==> r[k] in columns && r[k] !in MetadataColumns
    ensures forall j :: 0 <= j < |columns| && columns[j] !in MetadataColumns ==> columns[j] in r
  {
    if columns == [] then []
    else
      var c := columns[|columns| - 1];
      SemesterColumns(columns[..|columns| - 1]) + (if c in MetadataColumns then [] else [c])
  }

  /** The cells of `row` under `columns`, in column order. */
  function Cells(row: Row, columns: seq<string>): (r: seq<Cell>)
    ensures |r| == |columns|
    ensures forall k :: 0 <= k < |columns| ==> r[k] == Get(row, columns[k])
  {
    seq(|columns|, k requires 0 <= k < |columns| => Get(row, columns[k]))
  }
}
