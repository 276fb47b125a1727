/** The TypeScript snapshot converter (scripts/convert-excel.ts): every
    failure inside one file's processing is caught and gives an empty list. */
module ConvertTs {
  import opened Results
  import opened Text
  import opened Cells
  import opened Qualifications
  import opened Snapshot
  import DateText
  import Calendar

  /** Columns that may hold the examination code, in priority order. */
  const ExamCodeColumns: seq<string> := ["Examination code", "Exam code", "Code"]

  /** Columns that may hold the session, in priority order. */
  const TimeColumns: seq<string> := ["Time", "Session"]

  /** `excelDateToString`: the ISO date, or "" when `toISOString` throws. */
  function ExcelDateToString(serial: int): (r: string)
    ensures DateText.Representable(serial) ==> r == DateText.IsoText(DateText.SerialDate(serial))
    ensures !DateText.Representable(serial) ==> r == ""
  {
    match DateText.IsoDate(serial)
    case Success(text) => text
    case Failure(_) => ""
  }

  /** The converter's sheet test: the lower-cased name contains "all papers"
      or is exactly "allpapers". */
  predicate IsAllPapersSheet(name: string) {
    Includes(Lower(name), "all papers") || Lower(name) == "allpapers"
  }

  function ChooseSheet(sheets: seq<Sheet>): (r: Option<nat>)
    ensures r.Some? ==> r.value < |sheets| && IsAllPapersSheet(sheets[r.value].name)
    ensures r.Some? ==> forall j :: 0 <= j < r.value ==> !IsAllPapersSheet(sheets[j].name)
    ensures r.None? <==> forall j :: 0 <= j < |sheets| ==> !IsAllPapersSheet(sheets[j].name)
  {
    FindIndex(SheetNames(sheets), IsAllPapersSheet)
  }

  /** A numeric Date becomes its ISO text; anything else is copied. */
  function DateField(v: Value): (r: Value)
    ensures v.Num? && DateText.Representable(v.n) ==> r == Str(DateText.IsoText(DateText.SerialDate(v.n)))
    ensures v.Num? && !DateText.Representable(v.n) ==> r == Str("")
    ensures !v.Num? ==> r == v
  {
    match v
    case Num(n) => Str(ExcelDateToString(n))
    case _ => v
  }

  /** The `data.map` callback; it cannot throw. Each field takes the first
      truthy cell of its columns, in priority order, and "" when there is
      none; a numeric Date becomes its ISO date (or "" out of range) and any
      other Date is copied, absent included. */
  function MapRow(row: Row): (r: Record)
    ensures (Truthy(Cell(row, "Examination code")) ==> r.examCode == Cell(row, "Examination code"))
      && (!Truthy(Cell(row, "Examination code")) && Truthy(Cell(row, "Exam code"))
          ==> r.examCode == Cell(row, "Exam code"))
      && (!Truthy(Cell(row, "Examination code")) && !Truthy(Cell(row, "Exam code"))
          ==> r.examCode == (if Truthy(Cell(row, "Code")) then Cell(row, "Code") else Str("")))
    ensures (Truthy(Cell(row, "Title")) ==> r.title == Cell(row, "Title"))
      && (!Truthy(Cell(row, "Title")) && Truthy(Cell(row, "Paper Title")) ==> r.title == Cell(row, "Paper Title"))
      && (!Truthy(Cell(row, "Title")) && !Truthy(Cell(row, "Paper Title"))
          ==> r.title == (if Truthy(Cell(row, "Paper")) then Cell(row, "Paper") else Str("")))
    ensures r.time == (if Truthy(Cell(row, "Time")) then Cell(row, "Time")
                       else if Truthy(Cell(row, "Session")) then Cell(row, "Session") else Str(""))
    ensures r.subject == (if Truthy(Cell(row, "Subject")) then Cell(row, "Subject") else Str(""))
    ensures r.duration == (if Truthy(Cell(row, "Duration")) then Cell(row, "Duration") else Str(""))
    ensures Cell(row, "Date").Num? ==> r.date == Str(ExcelDateToString(Cell(row, "Date").n))
    ensures !Cell(row, "Date").Num? ==> r.date == Cell(row, "Date")
  {
    assert ExamCodeColumns[0] == "Examination code" && ExamCodeColumns[1] == "Exam code"
      && ExamCodeColumns[2] == "Code";
    assert TitleColumns[0] == "Title" && TitleColumns[1] == "Paper Title" && TitleColumns[2] == "Paper";
    assert TimeColumns[0] == "Time" && TimeColumns[1] == "Session";
    Record(
      DateField(Cell(row, "Date")),
      FirstTruthy(row, ExamCodeColumns),
      FirstTruthy(row, ["Subject"]),
      FirstTruthy(row, TitleColumns),
      FirstTruthy(row, TimeColumns),
      FirstTruthy(row, ["Duration"]))
  }

  /** `processExcelFile(filePath, qualification)`. */
  function ProcessFile(disk: Disk, file: string): (r: seq<Record>)
    ensures file !in disk ==> r == []
    ensures file in disk && disk[file].Unreadable? ==> r == []
  {
    if file !in disk then []
    else match disk[file]
      case Unreadable => []
      case Workbook(sheets) =>
        match ChooseSheet(sheets)
        case None => []
        case Some(i) =>
          var rows := sheets[i].rows;
          if |rows| == 0 then []
          else seq(|rows|, k requires 0 <= k < |rows| => MapRow(rows[k]))
  }

  /** `Object.entries(fileMap).forEach(...)`: each entry's list replaced by
      its file's records. */
  function Fill(acc: ExamData, entries: seq<Entry>, disk: Disk): (r: ExamData)
    requires Keys(entries) <= acc.Keys
    ensures r.Keys == acc.Keys
    ensures forall q :: q in acc && q !in Keys(entries) ==> r[q] == acc[q]
    ensures DistinctKeys(entries) ==>
              forall i :: 0 <= i < |entries| ==> r[entries[i].0] == ProcessFile(disk, entries[i].1)
    decreases |entries|
  {
    if |entries| == 0 then acc
    else
      KeysCons(entries);
      var q := entries[0].0;
      var r := Fill(acc[q := ProcessFile(disk, entries[0].1)], entries[1..], disk);
      assert DistinctKeys(entries) ==> q !in Keys(entries[1..]);
      assert forall i :: 1 <= i < |entries| ==> entries[i] == entries[1..][i - 1];
      r
  }

  /** The whole conversion: an empty list per qualification, then each file. */
  function Convert(table: seq<Entry>, disk: Disk): (r: ExamData)
    ensures r.Keys == Keys(table)
    ensures DistinctKeys(table) ==>
              forall i :: 0 <= i < |table| ==> r[table[i].0] == ProcessFile(disk, table[i].1)
  {
    Fill(EmptyData(table), table, disk)
  }

  // ---------------------------------------------------------------------
  // Properties

  /** A readable workbook whose first matching sheet has rows gives one
      record per row, in row order; with no matching sheet, or an empty one,
      it gives none. */
  lemma ProcessFileRows(disk: Disk, file: string)
    requires file in disk && disk[file].Workbook?
    ensures var sheets := disk[file].sheets;
      && (ChooseSheet(sheets).None? ==> ProcessFile(disk, file) == [])
      && (ChooseSheet(sheets).Some? ==>
            var rows := sheets[ChooseSheet(sheets).value].rows;
            && |ProcessFile(disk, file)| == |rows|
            && forall k :: 0 <= k < |rows| ==> ProcessFile(disk, file)[k] == MapRow(rows[k]))
  {
  }

  /** Serial 25569 is written 1970-01-01. */
  lemma ExcelDateEpoch()
    ensures ExcelDateToString(DateText.EpochSerial) == "1970-01-01"
  {
    Calendar.CivilFromDaysEpoch();
    assert DateText.SerialDate(DateText.EpochSerial) == Calendar.Date(1970, 1, 1);
    DateText.EpochIsoText();
  }

  /** Serial s + 1 is written as the calendar day after serial s. */
  lemma ExcelDateNext(serial: int)
    requires DateText.Representable(serial) && DateText.Representable(serial + 1)
    ensures ExcelDateToString(serial + 1)
            == DateText.IsoText(Calendar.NextDay(DateText.SerialDate(serial)))
  {
    Calendar.CivilFromDaysSucc(serial - DateText.EpochSerial);
  }

  /** On the real table: eight qualifications, each holding its own file's records. */
  lemma ConvertFileTable(disk: Disk)
    ensures Convert(FileTable, disk).Keys == Keys(FileTable)
    ensures forall i :: 0 <= i < |FileTable| ==>
              Convert(FileTable, disk)[FileTable[i].0] == ProcessFile(disk, FileTable[i].1)
  {
    FileTableDistinct();
  }

  /** One qualification's result depends on its own file only, so a missing
      or broken file elsewhere leaves it alone. */
  lemma ConvertIsolated(table: seq<Entry>, disk1: Disk, disk2: Disk, i: int)
    requires DistinctKeys(table)
    requires 0 <= i < |table|
    requires table[i].1 in disk1 <==> table[i].1 in disk2
    requires table[i].1 in disk1 ==> disk1[table[i].1] == disk2[table[i].1]
    ensures Convert(table, disk1)[table[i].0] == Convert(table, disk2)[table[i].0]
  {
  }
}
