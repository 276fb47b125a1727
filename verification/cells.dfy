/** Spreadsheet rows as the workbook reader delivers them, and JavaScript's
    truthiness and `||`, through which every column of a row is read. */
module Cells {
  import opened Results

  /** A cell: a number, a text, or nothing (a column the row lacks). */
  datatype Value = Num(n: int) | Str(s: string) | Absent

  /** A row maps column headers to cells. */
  type Row = map<string, Value>

  /** One sheet of a workbook: its name and its rows, header row excluded. */
  datatype Sheet = Sheet(name: string, rows: seq<Row>)

  /** A workbook file as the reader sees it: sheets in workbook order, or a
      file it cannot parse. */
  datatype FileContent = Unreadable | Workbook(sheets: seq<Sheet>)

  /** The data directory: file name to content. A name that is not a key is
      a file that does not exist. */
  type Disk = map<string, FileContent>

  /** Columns that may hold the paper title, in priority order. */
  const TitleColumns: seq<string> := ["Title", "Paper Title", "Paper"]

  /** JavaScript truthiness of a cell: 0, "" and undefined are falsy. */
  predicate Truthy(v: Value) {
    match v
    case Num(n) => n != 0
    case Str(s) => s != ""
    case Absent => false
  }

  /** `row[column]`, undefined when the row lacks the column. */
  function Cell(row: Row, column: string): Value {
    if column in row then row[column] else Absent
  }

  /** `row[c0] || row[c1] || ... || ''`: the first truthy cell among the
      columns, tried in priority order, or the empty string. */
  function FirstTruthy(row: Row, columns: seq<string>): (r: Value)
    ensures r == Str("") || Truthy(r)
    ensures (forall i :: 0 <= i < |columns| ==> !Truthy(Cell(row, columns[i]))) ==> r == Str("")
    ensures forall i :: 0 <= i < |columns| && Truthy(Cell(row, columns[i]))
              && (forall j :: 0 <= j < i ==> !Truthy(Cell(row, columns[j])))
              ==> r == Cell(row, columns[i])
  {
    if |columns| == 0 then Str("")
    else if Truthy(Cell(row, columns[0])) then Cell(row, columns[0])
    else FirstTruthy(row, columns[1..])
  }

  /** The position of the first element satisfying p, as `Array.prototype.find` scans. */
  function FindIndex<T>(s: seq<T>, p: T -> bool): (r: Option<nat>)
    ensures r.Some? ==> r.value < |s| && p(s[r.value])
    ensures r.Some? ==> forall j :: 0 <= j < r.value ==> !p(s[j])
    ensures r.None? <==> forall j :: 0 <= j < |s| ==> !p(s[j])
  {
    if |s| == 0 then None
    else if p(s[0]) then Some(0)
    else match FindIndex(s[1..], p)
      case None => None
      case Some(k) => Some(k + 1)
  }

  function SheetNames(sheets: seq<Sheet>): (names: seq<string>)
    ensures |names| == |sheets|
    ensures forall i :: 0 <= i < |sheets| ==> names[i] == sheets[i].name
  {
    if |sheets| == 0 then [] else [sheets[0].name] + SheetNames(sheets[1..])
  }
}
