/** How the three pipelines differ: the search service, the TypeScript
    converter and the JavaScript converter read the same workbooks with
    progressively stricter sheet tests and narrower column lists. */
module Variants {
  import opened Results
  import opened Text
  import opened Cells
  import Server
  import ConvertTs
  import ConvertJs
  import DateText

  /** Every sheet the JavaScript converter reads, the TypeScript converter
      also accepts, and every sheet that one accepts, the service accepts. */
  lemma SheetTestsNested(name: string)
    ensures ConvertJs.IsAllPapersSheet(name) ==> ConvertTs.IsAllPapersSheet(name)
    ensures ConvertTs.IsAllPapersSheet(name) ==> Server.IsAllPapersSheet(name)
  {
    if ConvertJs.IsAllPapersSheet(name) {
      assert Lower("All papers") == "all papers";
      IncludesSelf("all papers");
    }
    if Lower(name) == "allpapers" {
      IncludesSelf("allpapers");
    }
  }

  /** The first inclusion is strict: "AllPapers1" is only the service's
      sheet. */
  lemma ServerOnlySheet()
    ensures Server.IsAllPapersSheet("AllPapers1") && !ConvertTs.IsAllPapersSheet("AllPapers1")
  {
    assert Lower("AllPapers1") == "allpapers1";
    assert "allpapers" <= "allpapers1";
    IncludesSameLength("allpapers1", "all papers");
  }

  /** The second inclusion is strict: "ALL PAPERS" is not the JavaScript
      converter's sheet. */
  lemma TsOnlySheet()
    ensures ConvertTs.IsAllPapersSheet("ALL PAPERS") && !ConvertJs.IsAllPapersSheet("ALL PAPERS")
  {
    assert Lower("ALL PAPERS") == "all papers";
    IncludesSelf("all papers");
  }

  /** The service's paper and the TypeScript converter's title are read
      through the same column list. */
  lemma PaperIsTitle(row: Row, qualification: string)
    requires Server.MapRow(row, qualification).Success?
    ensures Server.MapRow(row, qualification).value.paper == ConvertTs.MapRow(row).title
  {
  }

  /** The two converters write the same record for a row exactly when the
      JavaScript one does not throw on its date and no fallback column
      decides a field: each primary column is truthy, or all its fallbacks
      are falsy. */
  lemma ConvertersAgree(row: Row)
    requires !Cell(row, "Date").Num? || DateText.Representable(Cell(row, "Date").n)
    ensures ConvertJs.MapRow(row) == Success(ConvertTs.MapRow(row)) <==>
      && (Truthy(Cell(row, "Examination code"))
          || (!Truthy(Cell(row, "Exam code")) && !Truthy(Cell(row, "Code"))))
      && (Truthy(Cell(row, "Title"))
          || (!Truthy(Cell(row, "Paper Title")) && !Truthy(Cell(row, "Paper"))))
      && (Truthy(Cell(row, "Time")) || !Truthy(Cell(row, "Session")))
  {
    ConvertJs.RowColumns(row);
  }
}
