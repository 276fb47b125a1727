/** The fixed table from qualification name to workbook file, shared by the
    search service and both snapshot converters, and the way a JavaScript
    object literal answers a lookup in it. */
module Qualifications {
  import opened Results

  /** A table entry: qualification name and workbook file name. */
  type Entry = (string, string)

  /** The table, in declaration order (the order of `Object.keys`). */
  const FileTable: seq<Entry> := [
    ("GCSE", "gcse-summer-2025-final.xlsx"),
    ("GCE", "gce-summer-2025-final.xlsx"),
    ("International GCSE", "int-gcse-summer-2025-final.xlsx"),
    ("BTEC", "BTEC-Summer-2025-Final-Timetable .xlsx"),
    ("T-Levels", "t-levels-summer-2025-final-timetable.xlsx"),
    ("Edexcel Awards", "edexcel-awards-summer-2025-final.xlsx"),
    ("Level 2 Extended Maths", "l2-extended-maths-summer-2025-final.xlsx"),
    ("Level 3 Core", "l3-core-summer-2025-final.xlsx")
  ]

  /** The qualification names of a table. */
  function Keys(table: seq<Entry>): set<string> {
    set i | 0 <= i < |table| :: table[i].0
  }

  lemma KeysCons(table: seq<Entry>)
    requires |table| > 0
    ensures Keys(table) == {table[0].0} + Keys(table[1..])
  {
    forall q | q in Keys(table)
      ensures q in {table[0].0} + Keys(table[1..])
    {
      var i :| 0 <= i < |table| && table[i].0 == q;
      if i > 0 {
        assert table[1..][i - 1].0 == q;
      }
    }
    forall q | q in Keys(table[1..])
      ensures q in Keys(table)
    {
      var i :| 0 <= i < |table[1..]| && table[1..][i].0 == q;
      assert table[i + 1].0 == q;
    }
  }

  /** An object literal has each key once. */
  predicate DistinctKeys(table: seq<Entry>) {
    forall i, j :: 0 <= i < j < |table| ==> table[i].0 != table[j].0
  }

  /** The file of qualification q, looking only at the table's own entries. */
  function FileFor(table: seq<Entry>, q: string): (r: Option<string>)
    ensures r.None? <==> q !in Keys(table)
    ensures r.Some? ==> exists i :: 0 <= i < |table| && table[i] == (q, r.value)
  {
    if |table| == 0 then None
    else if table[0].0 == q then Some(table[0].1)
    else FileFor(table[1..], q)
  }

  /** In a table with distinct keys, each entry's key finds that entry's file. */
  lemma {:induction false} FileForEntry(table: seq<Entry>, i: int)
    requires DistinctKeys(table)
    requires 0 <= i < |table|
    ensures FileFor(table, table[i].0) == Some(table[i].1)
  {
    if i > 0 {
      FileForEntry(table[1..], i - 1);
    }
  }

  /** Properties every plain object inherits from `Object.prototype`. */
  const PrototypeMembers: set<string> := {
    "constructor", "__proto__", "__defineGetter__", "__defineSetter__",
    "__lookupGetter__", "__lookupSetter__", "hasOwnProperty", "isPrototypeOf",
    "propertyIsEnumerable", "toString", "toLocaleString", "valueOf"
  }

  /** What `fileNameMap[q]` yields on a plain object literal. */
  datatype Lookup =
    | FileName(name: string)  // an own entry: a string
    | Inherited               // an inherited member: a function or an object, truthy but no string
    | Undefined

  function ObjectLookup(table: seq<Entry>, q: string): (r: Lookup)
    ensures q in Keys(table) ==> r == FileName(FileFor(table, q).value)
    ensures r == Undefined <==> q !in Keys(table) && q !in PrototypeMembers
    ensures r == Inherited <==> q !in Keys(table) && q in PrototypeMembers
  {
    match FileFor(table, q)
    case Some(f) => FileName(f)
    case None => if q in PrototypeMembers then Inherited else Undefined
  }

  /** The table's qualification names. */
  lemma FileTableKeys()
    ensures |FileTable| == 8
    ensures Keys(FileTable) == {"GCSE", "GCE", "International GCSE", "BTEC", "T-Levels",
                                "Edexcel Awards", "Level 2 Extended Maths", "Level 3 Core"}
  {
    assert FileTable[0].0 == "GCSE" && FileTable[1].0 == "GCE";
    assert FileTable[2].0 == "International GCSE" && FileTable[3].0 == "BTEC";
    assert FileTable[4].0 == "T-Levels" && FileTable[5].0 == "Edexcel Awards";
    assert FileTable[6].0 == "Level 2 Extended Maths" && FileTable[7].0 == "Level 3 Core";
  }

  /** No qualification is listed twice. */
  lemma FileTableDistinct()
    ensures DistinctKeys(FileTable)
  {
  }

  /** No qualification is a name every object inherits. */
  lemma FileTableOwnNames()
    ensures Keys(FileTable) !! PrototypeMembers
  {
    FileTableKeys();
  }
}
