/** The JavaScript snapshot converter (scripts/convert-excel.js): the sheet
    must be named exactly "All papers", each field has one column, and
    failures are caught per qualification by the batch loop. */
module ConvertJs {
  import opened Results
  import opened Cells
  import opened Qualifications
  import opened Snapshot
  import DateText

  /** The only sheet name the converter reads. */
  const AllPapers: string := "All papers"

  predicate IsAllPapersSheet(name: string) {
    name == AllPapers
  }

  /** `workbook.Sheets['All papers']`. */
  function ChooseSheet(sheets: seq<Sheet>): (r: Option<nat>)
    ensures r.Some? ==> r.value < |sheets| && sheets[r.value].name == AllPapers
    ensures r.None? <==> forall j :: 0 <= j < |sheets| ==> sheets[j].name != AllPapers
  {
    FindIndex(SheetNames(sheets), IsAllPapersSheet)
  }

  /** A numeric Date becomes its ISO text, which throws out of range;
      anything else is copied. */
  function DateField(v: Value): (r: Result<Value, Thrown>)
    ensures r.Failure? <==> v.Num? && !DateText.Representable(v.n)
    ensures !v.Num? ==> r == Success(v)
  {
    match v
    case Num(n) =>
      (match DateText.IsoDate(n)
       case Success(text) => Success(Str(text))
       case Failure(e) => Failure(e))
    case _ => Success(v)
  }

  /** The `data.map` callback. */
  function MapRow(row: Row): (r: Result<Record, Thrown>)
    ensures r.Failure? <==> DateField(Cell(row, "Date")).Failure?
  {
    match DateField(Cell(row, "Date"))
    case Failure(e) => Failure(e)
    case Success(date) =>
      Success(Record(
        date,
        FirstTruthy(row, ["Examination code"]),
        FirstTruthy(row, ["Subject"]),
        FirstTruthy(row, ["Title"]),
        FirstTruthy(row, ["Time"]),
        FirstTruthy(row, ["Duration"])))
  }

  /** `data.map(...)`: one record per row in row order, unless a row throws. */
  function MapRows(rows: seq<Row>): (r: Result<seq<Record>, Thrown>)
    ensures r.Failure? <==> exists i :: 0 <= i < |rows| && MapRow(rows[i]).Failure?
    ensures r.Success? ==> |r.value| == |rows|
    ensures r.Success? ==> forall i :: 0 <= i < |rows| ==> MapRow(rows[i]) == Success(r.value[i])
  {
    if |rows| == 0 then Success([])
    else
      match MapRow(rows[0])
      case Failure(e) => Failure(e)
      case Success(record) =>
        match MapRows(rows[1..])
        case Failure(e) => Failure(e)
        case Success(rest) => Success([record] + rest)
  }

  /** `processExcelFile(filePath)`: it catches nothing itself. */
  function ProcessFile(content: FileContent): (r: Result<seq<Record>, Thrown>)
    ensures content.Unreadable? ==> r.Failure?
    ensures content.Workbook? && ChooseSheet(content.sheets).None? ==> r == Success([])
  {
    match content
    case Unreadable => Failure(ReadError)
    case Workbook(sheets) =>
      match ChooseSheet(sheets)
      case None => Success([])
      case Some(i) =>
        var rows := sheets[i].rows;
        if |rows| == 0 then Success([]) else MapRows(rows)
  }

  /** One iteration of the batch loop: the new list, or None when the file
      is missing or its processing threw, so the entry keeps its list. */
  function Attempt(disk: Disk, file: string): (r: Option<seq<Record>>)
    ensures file !in disk ==> r.None?
    ensures file in disk ==> (r.None? <==> ProcessFile(disk[file]).Failure?)
  {
    if file !in disk then None
    else match ProcessFile(disk[file])
      case Success(records) => Some(records)
      case Failure(_) => None
  }

  /** `Object.entries(fileMap).forEach(...)` with a try/catch per entry. */
  function Fill(acc: ExamData, entries: seq<Entry>, disk: Disk): (r: ExamData)
    requires Keys(entries) <= acc.Keys
    ensures r.Keys == acc.Keys
    ensures forall q :: q in acc && q !in Keys(entries) ==> r[q] == acc[q]
    ensures DistinctKeys(entries) ==>
              forall i :: 0 <= i < |entries| ==>
                r[entries[i].0] == match Attempt(disk, entries[i].1)
                                   case Some(records) => records
                                   case None => acc[entries[i].0]
    decreases |entries|
  {
    if |entries| == 0 then acc
    else
      KeysCons(entries);
      var q := entries[0].0;
      var next := match Attempt(disk, entries[0].1)
                  case Some(records) => acc[q := records]
                  case None => acc;
      var r := Fill(next, entries[1..], disk);
      assert DistinctKeys(entries) ==> q !in Keys(entries[1..]);
      assert forall i :: 1 <= i < |entries| ==> entries[i] == entries[1..][i - 1];
      r
  }

  /** The whole conversion: an empty list per qualification, then each file. */
  function Convert(table: seq<Entry>, disk: Disk): (r: ExamData)
    ensures r.Keys == Keys(table)
    ensures DistinctKeys(table) ==>
              forall i :: 0 <= i < |table| ==>
                r[table[i].0] == match Attempt(disk, table[i].1)
                                 case Some(records) => records
                                 case None => []
  {
    Fill(EmptyData(table), table, disk)
  }

  // ---------------------------------------------------------------------
  // Properties

  /** Each field reads its one column, "" when falsy; a numeric Date becomes
      its ISO date and any other Date is copied, absent included. */
  lemma RowColumns(row: Row)
    requires MapRow(row).Success?
    ensures var r := MapRow(row).value;
      && r.examCode == (if Truthy(Cell(row, "Examination code")) then Cell(row, "Examination code") else Str(""))
      && r.subject == (if Truthy(Cell(row, "Subject")) then Cell(row, "Subject") else Str(""))
      && r.title == (if Truthy(Cell(row, "Title")) then Cell(row, "Title") else Str(""))
      && r.time == (if Truthy(Cell(row, "Time")) then Cell(row, "Time") else Str(""))
      && r.duration == (if Truthy(Cell(row, "Duration")) then Cell(row, "Duration") else Str(""))
      && (Cell(row, "Date").Num? ==>
            r.date == Str(DateText.IsoText(DateText.SerialDate(Cell(row, "Date").n))))
      && (!Cell(row, "Date").Num? ==> r.date == Cell(row, "Date"))
  {
    var r := MapRow(row).value;
    assert r.examCode == FirstTruthy(row, ["Examination code"]);
    assert r.subject == FirstTruthy(row, ["Subject"]);
    assert r.title == FirstTruthy(row, ["Title"]);
    assert r.time == FirstTruthy(row, ["Time"]);
    assert r.duration == FirstTruthy(row, ["Duration"]);
  }

  /** With an "All papers" sheet that has rows, and no out-of-range numeric
      date, the file gives one record per row in row order. */
  lemma ProcessFileRows(sheets: seq<Sheet>)
    requires ChooseSheet(sheets).Some?
    ensures var rows := sheets[ChooseSheet(sheets).value].rows;
      && (|rows| == 0 ==> ProcessFile(Workbook(sheets)) == Success([]))
      && ((exists k :: 0 <= k < |rows| && Cell(rows[k], "Date").Num?
                       && !DateText.Representable(Cell(rows[k], "Date").n))
          ==> ProcessFile(Workbook(sheets)).Failure?)
      && ((forall k :: 0 <= k < |rows| ==> MapRow(rows[k]).Success?) ==>
            var r := ProcessFile(Workbook(sheets));
            && r.Success? && |r.value| == |rows|
            && forall k :: 0 <= k < |rows| ==> MapRow(rows[k]) == Success(r.value[k]))
  {
    var rows := sheets[ChooseSheet(sheets).value].rows;
    forall k | 0 <= k < |rows| && Cell(rows[k], "Date").Num? && !DateText.Representable(Cell(rows[k], "Date").n)
      ensures ProcessFile(Workbook(sheets)).Failure?
    {
      assert MapRow(rows[k]).Failure?;
    }
  }

  /** On the real table: eight qualifications, each with its own file's
      records, or an empty list when that file is missing or threw. */
  lemma ConvertFileTable(disk: Disk)
    ensures Convert(FileTable, disk).Keys == Keys(FileTable)
    ensures forall i :: 0 <= i < |FileTable| && Attempt(disk, FileTable[i].1).None? ==>
              Convert(FileTable, disk)[FileTable[i].0] == []
  {
    FileTableDistinct();
  }

  /** One qualification's result depends on its own file only: a missing
      file or an exception elsewhere leaves it alone. */
  lemma ConvertIsolated(table: seq<Entry>, disk1: Disk, disk2: Disk, i: int)
    requires DistinctKeys(table)
    requires 0 <= i < |table|
    requires table[i].1 in disk1 <==> table[i].1 in disk2
    requires table[i].1 in disk1 ==> disk1[table[i].1] == disk2[table[i].1]
    ensures Convert(table, disk1)[table[i].0] == Convert(table, disk2)[table[i].0]
  {
  }
}
