/** The snapshot both converters write: per qualification, the list of
    converted exams. */
module Snapshot {
  import opened Cells
  import opened Qualifications

  /** One converted exam. A Date cell that is not a number is copied as it
      is, so `date` may be a number-free text, or absent (omitted from JSON). */
  datatype Record = Record(
    date: Value,
    examCode: Value,
    subject: Value,
    title: Value,
    time: Value,
    duration: Value)

  /** Qualification name to its exams (the `{ exams: [...] }` wrapper dropped). */
  type ExamData = map<string, seq<Record>>

  /** `Object.keys(fileMap).reduce(...)`: each key set to an empty list, in order. */
  function AddEmpty(acc: ExamData, table: seq<Entry>): (r: ExamData)
    ensures r.Keys == acc.Keys + Keys(table)
    ensures forall q :: q in Keys(table) ==> r[q] == []
    ensures forall q :: q in acc && q !in Keys(table) ==> r[q] == acc[q]
    decreases |table|
  {
    if |table| == 0 then acc
    else
      KeysCons(table);
      AddEmpty(acc[table[0].0 := []], table[1..])
  }

  /** The initial snapshot: every qualification of the table with no exams. */
  function EmptyData(table: seq<Entry>): (r: ExamData)
    ensures r.Keys == Keys(table)
    ensures forall q :: q in r ==> r[q] == []
  {
    AddEmpty(map[], table)
  }
}
