/** The search service (server/index.ts): it reads the qualification's
    workbook on every request, maps the rows of its "all papers" sheet to
    exams, and answers `/api/search` with a status code and a body. */
module Server {
  import opened Results
  import opened Text
  import opened Cells
  import opened Qualifications
  import DateText

  /** One exam as the service returns it. Fields read with `|| ''` keep the
      cell's JavaScript value, which may be a number. */
  datatype Exam = Exam(
    qualification: string,
    subject: Value,
    paper: Value,
    date: string,
    time: Value,
    duration: string)

  // ---------------------------------------------------------------------
  // Sheet choice

  /** The service's sheet test: the lower-cased name contains "all papers"
      or "allpapers". */
  predicate IsAllPapersSheet(name: string) {
    Includes(Lower(name), "all papers") || Includes(Lower(name), "allpapers")
  }

  /** The sheet `sheetNames.find(...)` picks. */
  function ChooseSheet(sheets: seq<Sheet>): (r: Option<nat>)
    ensures r.Some? ==> r.value < |sheets| && IsAllPapersSheet(sheets[r.value].name)
    ensures r.Some? ==> forall j :: 0 <= j < r.value ==> !IsAllPapersSheet(sheets[j].name)
    ensures r.None? <==> forall j :: 0 <= j < |sheets| ==> !IsAllPapersSheet(sheets[j].name)
  {
    FindIndex(SheetNames(sheets), IsAllPapersSheet)
  }

  // ---------------------------------------------------------------------
  // Row mapping

  /** The long date of a numeric Date cell; any other cell `|| ''`. */
  function DateField(v: Value): (r: string)
    ensures v.Num? && DateText.Representable(v.n) ==> r == DateText.LongText(DateText.SerialDate(v.n))
    ensures v.Num? && !DateText.Representable(v.n) ==> r == "Invalid Date"
    ensures !v.Num? ==> r == (if v.Str? then v.s else "")
  {
    match v
    case Num(n) => DateText.LongDate(n)
    case Str(s) => s
    case Absent => ""
  }

  /** Adds the "h" and "m" units to a duration written as hours.minutes:
      the first two '.'-separated pieces become hours and minutes, and an
      absent or empty minutes piece becomes "00". */
  function NormaliseDuration(s: string): (r: string)
    ensures s == "" || 'h' in s || 'm' in s ==> r == s
    ensures r == "" || 'h' in r || 'm' in r
  {
    IncludesChar(s, 'h');
    IncludesChar(s, 'm');
    if s == "" || Includes(s, "h") || Includes(s, "m") then s
    else
      var pieces := Split(s, '.');
      var minutes := if |pieces| > 1 then pieces[1] else "";
      var r := pieces[0] + "h " + (if minutes == "" then "00" else minutes) + "m";
      assert r[|pieces[0]|] == 'h';
      assert r != "";
      r
  }

  /** `row.Duration || ''`, normalised; a numeric duration has no `includes`. */
  function DurationField(v: Value): (r: Result<string, Thrown>)
    ensures r.Failure? <==> v.Num? && v.n != 0
    ensures r.Failure? ==> r.error == TypeError
    ensures v.Str? ==> r == Success(NormaliseDuration(v.s))
    ensures !Truthy(v) ==> r == Success("")
  {
    match v
    case Num(n) => if n == 0 then Success("") else Failure(TypeError)
    case Str(s) => Success(NormaliseDuration(s))
    case Absent => Success("")
  }

  /** The `data.map` callback for one row. */
  function MapRow(row: Row, qualification: string): (r: Result<Exam, Thrown>)
    ensures r.Failure? <==> Cell(row, "Duration").Num? && Cell(row, "Duration").n != 0
    ensures r.Success? ==> r.value.qualification == qualification
  {
    match DurationField(Cell(row, "Duration"))
    case Failure(e) => Failure(e)
    case Success(duration) =>
      Success(Exam(
        qualification,
        FirstTruthy(row, ["Subject"]),
        FirstTruthy(row, TitleColumns),
        DateField(Cell(row, "Date")),
        FirstTruthy(row, ["Time"]),
        duration))
  }

  /** `data.map(...)`: one exam per row in row order, unless a row throws. */
  function MapRows(rows: seq<Row>, qualification: string): (r: Result<seq<Exam>, Thrown>)
    ensures r.Failure? <==> exists i :: 0 <= i < |rows| && MapRow(rows[i], qualification).Failure?
    ensures r.Success? ==> |r.value| == |rows|
    ensures r.Success? ==> forall i :: 0 <= i < |rows| ==> MapRow(rows[i], qualification) == Success(r.value[i])
  {
    if |rows| == 0 then Success([])
    else
      match MapRow(rows[0], qualification)
      case Failure(e) => Failure(e)
      case Success(exam) =>
        match MapRows(rows[1..], qualification)
        case Failure(e) => Failure(e)
        case Success(rest) => Success([exam] + rest)
  }

  /** `processExcelFile`: the exams of the chosen sheet, or none when the
      file cannot be read, no sheet matches, or a row throws. */
  function ProcessFile(content: FileContent, qualification: string): (r: seq<Exam>)
    ensures forall e :: e in r ==> e.qualification == qualification
    ensures content.Unreadable? ==> r == []
    ensures content.Workbook? && ChooseSheet(content.sheets).None? ==> r == []
  {
    match content
    case Unreadable => []
    case Workbook(sheets) =>
      match ChooseSheet(sheets)
      case None => []
      case Some(i) =>
        match MapRows(sheets[i].rows, qualification)
        case Failure(_) => []
        case Success(exams) => exams
  }

  // ---------------------------------------------------------------------
  // Search filter

  /** The filter's predicate, when it does not throw: the lower-cased term
      is part of the lower-cased subject or paper. */
  predicate Matches(e: Exam, term: string) {
    e.subject.Str?
    && (Includes(Lower(e.subject.s), Lower(term))
        || (e.paper.Str? && Includes(Lower(e.paper.s), Lower(term))))
  }

  /** The filter's callback throws: the subject is no string, or the subject
      does not match and the paper is no string. */
  predicate Throws(e: Exam, term: string) {
    !e.subject.Str? || (!Includes(Lower(e.subject.s), Lower(term)) && !e.paper.Str?)
  }

  /** The `exams.filter` callback. */
  function TestExam(e: Exam, term: string): (r: Result<bool, Thrown>)
    ensures r.Failure? <==> Throws(e, term)
    ensures r.Success? ==> (r.value <==> Matches(e, term))
  {
    match e.subject
    case Str(subject) =>
      if Includes(Lower(subject), Lower(term)) then Success(true)
      else (match e.paper
        case Str(paper) => Success(Includes(Lower(paper), Lower(term)))
        case _ => Failure(TypeError))
    case _ => Failure(TypeError)
  }

  /** a is b with some elements left out, the rest in their order. */
  predicate IsSubsequence<T(==)>(a: seq<T>, b: seq<T>)
    decreases |b|
  {
    |a| == 0 || (|b| > 0 && ((a[0] == b[0] && IsSubsequence(a[1..], b[1..])) || IsSubsequence(a, b[1..])))
  }

  /** The exams that match the term, in their order: what the filter keeps
      when its callback throws on none of them. */
  function Kept(exams: seq<Exam>, term: string): seq<Exam> {
    if |exams| == 0 then []
    else (if Matches(exams[0], term) then [exams[0]] else []) + Kept(exams[1..], term)
  }

  /** `exams.filter(...)`: an exception if the callback throws on any exam,
      otherwise the matching exams. */
  function FilterExams(exams: seq<Exam>, term: string): (r: Result<seq<Exam>, Thrown>)
    ensures r.Failure? <==> exists i :: 0 <= i < |exams| && Throws(exams[i], term)
    ensures r.Success? ==> r.value == Kept(exams, term)
  {
    if |exams| == 0 then Success([])
    else
      match TestExam(exams[0], term)
      case Failure(e) => Failure(e)
      case Success(keep) =>
        match FilterExams(exams[1..], term)
        case Failure(e) =>
          assert exists i :: 0 <= i < |exams| - 1 && Throws(exams[1..][i], term);
          Failure(e)
        case Success(rest) =>
          assert forall i :: 1 <= i < |exams| ==> exams[i] == exams[1..][i - 1];
          if keep then Success([exams[0]] + rest) else Success(rest)
  }

  /** Every kept exam matches. */
  lemma {:induction false} KeptSound(exams: seq<Exam>, term: string)
    ensures forall e :: e in Kept(exams, term) ==> Matches(e, term)
  {
    if |exams| > 0 {
      KeptSound(exams[1..], term);
    }
  }

  /** Every matching exam is kept. */
  lemma {:induction false} KeptComplete(exams: seq<Exam>, term: string)
    ensures forall i :: 0 <= i < |exams| && Matches(exams[i], term) ==> exams[i] in Kept(exams, term)
  {
    if |exams| > 0 {
      KeptComplete(exams[1..], term);
      assert forall i :: 1 <= i < |exams| ==> exams[i] == exams[1..][i - 1];
    }
  }

  /** The kept exams keep their relative order. */
  lemma {:induction false} KeptSubsequence(exams: seq<Exam>, term: string)
    ensures IsSubsequence(Kept(exams, term), exams)
  {
    if |exams| > 0 {
      var rest := Kept(exams[1..], term);
      KeptSubsequence(exams[1..], term);
      if Matches(exams[0], term) {
        assert Kept(exams, term) == [exams[0]] + rest;
        assert ([exams[0]] + rest)[1..] == rest;
      } else {
        assert Kept(exams, term) == rest;
      }
    }
  }

  /** Each matching exam is kept as often as it occurs, and no other exam is kept. */
  lemma {:induction false} KeptCount(exams: seq<Exam>, term: string)
    ensures forall e :: multiset(Kept(exams, term))[e]
                        == if Matches(e, term) then multiset(exams)[e] else 0
  {
    if |exams| > 0 {
      KeptCount(exams[1..], term);
      assert exams == [exams[0]] + exams[1..];
    }
  }

  // ---------------------------------------------------------------------
  // The request handler

  datatype Body = Exams(exams: seq<Exam>) | Error(message: string)

  datatype Response = Response(status: int, body: Body)

  /** The exams of the request's file once it is known to exist. */
  function Ingested(disk: Disk, qualification: string, file: string): seq<Exam>
    requires file in disk
  {
    ProcessFile(disk[file], qualification)
  }

  /** The handler from the file check on, for a file name already found. */
  function AnswerFromFile(disk: Disk, qualification: string, file: string, searchTerm: string): (r: Response)
    ensures r.status in {200, 404, 500}
    ensures r.status == 404 <==> file !in disk
    ensures r.status == 200 && searchTerm == "" ==> r.body == Exams(Ingested(disk, qualification, file))
    ensures r.status == 200 && searchTerm != "" ==>
              r.body.Exams? && FilterExams(Ingested(disk, qualification, file), searchTerm) == Success(r.body.exams)
  {
    if file !in disk then Response(404, Error("Exam data file not found"))
    else
      var exams := ProcessFile(disk[file], qualification);
      if |exams| == 0 then Response(500, Error("No exam data found in the file"))
      else if searchTerm == "" then Response(200, Exams(exams))
      else match FilterExams(exams, searchTerm)
        case Failure(_) => Response(500, Error("Error processing search request"))
        case Success(found) => Response(200, Exams(found))
  }

  /** `GET /api/search`, with the qualification looked up among the table's
      own entries only. Query parameters arrive as strings, "" when absent. */
  function Search(disk: Disk, qualification: string, searchTerm: string): (r: Response)
    ensures r.status in {200, 400, 404, 500}
    ensures r.status == 400 <==> qualification == "" || qualification !in Keys(FileTable)
  {
    if qualification == "" then Response(400, Error("Qualification is required"))
    else match FileFor(FileTable, qualification)
      case None => Response(400, Error("Invalid qualification"))
      case Some(file) => AnswerFromFile(disk, qualification, file, searchTerm)
  }

  /** The handler as written: `fileNameMap[qualification]` on a plain object
      also finds the members every object inherits; such a value is truthy,
      and `path.join` throws on it, so the catch answers 500. */
  function SearchAsWritten(disk: Disk, qualification: string, searchTerm: string): (r: Response)
    ensures qualification !in PrototypeMembers ==> r == Search(disk, qualification, searchTerm)
  {
    if qualification == "" then Response(400, Error("Qualification is required"))
    else match ObjectLookup(FileTable, qualification)
      case Undefined => Response(400, Error("Invalid qualification"))
      case Inherited => Response(500, Error("Error processing search request"))
      case FileName(file) => AnswerFromFile(disk, qualification, file, searchTerm)
  }

  // ---------------------------------------------------------------------
  // Properties

  /** Normalising a duration twice changes nothing. */
  lemma DurationIdempotent(s: string)
    ensures NormaliseDuration(NormaliseDuration(s)) == NormaliseDuration(s)
  {
  }

  /** Text free of the separator and of the unit letters. */
  predicate PlainPiece(p: string) {
    '.' !in p && 'h' !in p && 'm' !in p
  }

  /** "H.M" becomes "Hh Mm" with M copied as written ("00" when empty):
      "1.5" gives "1h 5m", not a conversion of half an hour. */
  lemma DurationOfDecimal(hours: string, minutes: string)
    requires PlainPiece(hours) && PlainPiece(minutes)
    ensures NormaliseDuration(hours + "." + minutes)
            == hours + "h " + (if minutes == "" then "00" else minutes) + "m"
  {
    var s := hours + "." + minutes;
    assert s == hours + ['.'] + minutes;
    SplitAtFirst(hours, '.', minutes);
    SplitWithout(minutes, '.');
    assert 'h' !in s && 'm' !in s;
  }

  /** A whole number of hours gets "00" minutes. */
  lemma DurationOfWhole(hours: string)
    requires hours != "" && PlainPiece(hours)
    ensures NormaliseDuration(hours) == hours + "h 00m"
  {
    SplitWithout(hours, '.');
  }

  /** Pieces after the second are dropped. */
  lemma DurationDropsLaterPieces(hours: string, minutes: string, rest: string)
    requires PlainPiece(hours) && PlainPiece(minutes)
    requires 'h' !in rest && 'm' !in rest
    ensures NormaliseDuration(hours + "." + minutes + "." + rest)
            == hours + "h " + (if minutes == "" then "00" else minutes) + "m"
  {
    var s := hours + "." + minutes + "." + rest;
    assert s == hours + ['.'] + (minutes + ['.'] + rest);
    SplitAtFirst(hours, '.', minutes + ['.'] + rest);
    SplitAtFirst(minutes, '.', rest);
    assert 'h' !in s && 'm' !in s;
  }

  /** "1.5" gives "1h 5m". */
  lemma DurationOneFive()
    ensures NormaliseDuration("1.5") == "1h 5m"
  {
    assert "1.5" == "1" + "." + "5";
    DurationOfDecimal("1", "5");
  }

  /** "2" gives "2h 00m". */
  lemma DurationTwo()
    ensures NormaliseDuration("2") == "2h 00m"
  {
    DurationOfWhole("2");
  }

  /** A duration that already names its units is kept: "90m" stays "90m". */
  lemma DurationWithUnits()
    ensures NormaliseDuration("1h 30m") == "1h 30m"
    ensures NormaliseDuration("90m") == "90m"
  {
    assert "1h 30m"[1] == 'h';
    assert "90m"[2] == 'm';
  }

  /** The paper is the first truthy of Title, Paper Title and Paper, else "". */
  lemma PaperPriority(row: Row, qualification: string)
    requires MapRow(row, qualification).Success?
    ensures var p := MapRow(row, qualification).value.paper;
      && (Truthy(Cell(row, "Title")) ==> p == Cell(row, "Title"))
      && (!Truthy(Cell(row, "Title")) && Truthy(Cell(row, "Paper Title")) ==> p == Cell(row, "Paper Title"))
      && (!Truthy(Cell(row, "Title")) && !Truthy(Cell(row, "Paper Title")) && Truthy(Cell(row, "Paper"))
          ==> p == Cell(row, "Paper"))
      && (!Truthy(Cell(row, "Title")) && !Truthy(Cell(row, "Paper Title")) && !Truthy(Cell(row, "Paper"))
          ==> p == Str(""))
  {
    var p := MapRow(row, qualification).value.paper;
    assert p == FirstTruthy(row, TitleColumns);
    assert TitleColumns[0] == "Title" && TitleColumns[1] == "Paper Title" && TitleColumns[2] == "Paper";
  }

  /** Subject and time default to "", a numeric date becomes the long date of
      its serial, any other date is kept or becomes "". */
  lemma RowFields(row: Row, qualification: string)
    requires MapRow(row, qualification).Success?
    ensures var e := MapRow(row, qualification).value;
      && e.qualification == qualification
      && e.subject == (if Truthy(Cell(row, "Subject")) then Cell(row, "Subject") else Str(""))
      && e.time == (if Truthy(Cell(row, "Time")) then Cell(row, "Time") else Str(""))
      && (Cell(row, "Date").Num? ==> e.date == DateText.LongDate(Cell(row, "Date").n))
      && (Cell(row, "Date").Str? ==> e.date == Cell(row, "Date").s)
      && (Cell(row, "Date").Absent? ==> e.date == "")
      && e.duration == (if Cell(row, "Duration").Str? then NormaliseDuration(Cell(row, "Duration").s) else "")
  {
    var e := MapRow(row, qualification).value;
    assert e.subject == FirstTruthy(row, ["Subject"]);
    assert e.time == FirstTruthy(row, ["Time"]);
  }

  /** The exams of a readable workbook are its first matching sheet's rows,
      one per row and in row order, unless a row has a nonzero numeric duration. */
  lemma ProcessFileRows(sheets: seq<Sheet>, qualification: string)
    requires ChooseSheet(sheets).Some?
    ensures var rows := sheets[ChooseSheet(sheets).value].rows;
      var r := ProcessFile(Workbook(sheets), qualification);
      && ((exists k :: 0 <= k < |rows| && Cell(rows[k], "Duration").Num? && Cell(rows[k], "Duration").n != 0)
          ==> r == [])
      && ((forall k :: 0 <= k < |rows| ==> MapRow(rows[k], qualification).Success?)
          ==> |r| == |rows| && forall k :: 0 <= k < |rows| ==> MapRow(rows[k], qualification) == Success(r[k]))
  {
  }

  /** The listed checks decide the status, in this order. */
  lemma SearchStatusOrder(disk: Disk, qualification: string, searchTerm: string)
    ensures qualification == "" ==>
      Search(disk, qualification, searchTerm) == Response(400, Error("Qualification is required"))
    ensures qualification != "" && qualification !in Keys(FileTable) ==>
      Search(disk, qualification, searchTerm) == Response(400, Error("Invalid qualification"))
    ensures qualification != "" && qualification in Keys(FileTable) ==>
      var file := FileFor(FileTable, qualification).value;
      && (file !in disk ==> Search(disk, qualification, searchTerm) == Response(404, Error("Exam data file not found")))
      && (file in disk && Ingested(disk, qualification, file) == [] ==>
            Search(disk, qualification, searchTerm) == Response(500, Error("No exam data found in the file")))
      && (file in disk && Ingested(disk, qualification, file) != [] ==>
            Search(disk, qualification, searchTerm).status
              == if searchTerm == "" || FilterExams(Ingested(disk, qualification, file), searchTerm).Success?
                 then 200 else 500)
  {
  }

  /** With no search term a successful search returns exactly the ingested
      exams, in the same order. */
  lemma SearchEmptyTerm(disk: Disk, qualification: string)
    ensures Search(disk, qualification, "").status == 200 ==>
              && qualification in Keys(FileTable) && FileFor(FileTable, qualification).value in disk
              && Search(disk, qualification, "").body
                 == Exams(Ingested(disk, qualification, FileFor(FileTable, qualification).value))
  {
  }

  /** With a search term a successful search returns exactly the ingested
      exams whose subject or paper contains the term, ignoring case, in
      their order and with their multiplicity. */
  lemma SearchFiltered(disk: Disk, qualification: string, searchTerm: string)
    requires searchTerm != ""
    ensures Search(disk, qualification, searchTerm).status == 200 ==>
              qualification in Keys(FileTable) && FileFor(FileTable, qualification).value in disk
    ensures Search(disk, qualification, searchTerm).status == 200 ==>
      var all := Ingested(disk, qualification, FileFor(FileTable, qualification).value);
      var found := Search(disk, qualification, searchTerm).body.exams;
      && Search(disk, qualification, searchTerm).body.Exams?
      && (forall e :: e in found ==> Matches(e, searchTerm))
      && (forall i :: 0 <= i < |all| && Matches(all[i], searchTerm) ==> all[i] in found)
      && IsSubsequence(found, all)
      && (forall e :: multiset(found)[e] == if Matches(e, searchTerm) then multiset(all)[e] else 0)
  {
    if Search(disk, qualification, searchTerm).status == 200 {
      var all := Ingested(disk, qualification, FileFor(FileTable, qualification).value);
      KeptSound(all, searchTerm);
      KeptComplete(all, searchTerm);
      KeptSubsequence(all, searchTerm);
      KeptCount(all, searchTerm);
    }
  }

  /** As written, a qualification named like an inherited object member gets
      500 where an unknown qualification gets 400; the corrected lookup gives 400. */
  lemma InheritedNameAnswer(disk: Disk, qualification: string, searchTerm: string)
    requires qualification in PrototypeMembers
    ensures SearchAsWritten(disk, qualification, searchTerm)
            == Response(500, Error("Error processing search request"))
    ensures Search(disk, qualification, searchTerm) == Response(400, Error("Invalid qualification"))
  {
    FileTableOwnNames();
    assert qualification != "";
  }

  /** For instance `?qualification=toString`. */
  lemma ToStringQuery(disk: Disk)
    ensures SearchAsWritten(disk, "toString", "").status == 500
    ensures Search(disk, "toString", "").status == 400
  {
    InheritedNameAnswer(disk, "toString", "");
  }
}
