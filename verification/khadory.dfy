/**
 khadory.js: courses from the third table on (number in the second cell,
 name in the third) under the `ptuk_` prefix without `altName`; the
 localisation pairs every id present in both languages, empty names
 included; and `addMajor` without a miss branch.
 */
module Khadory {
  import opened Wrappers
  import opened Text
  import opened Naming
  import opened Tables
  import opened Localize
  import opened Store

  const Prefix := "ptuk_"
  const PtukLayout := Layout(1, 2)

  /** The first table the subject loop reads (khadory.js, line 131). */
  const StartIndex: nat := 2

  /** The college every program document points to (khadory.js, line 204). */
  const College := Ref("ptuk_faculty_of_information_technology", External("RlE5RmkII31eMNAeEBxR"))

  /** `data.json`: the courses and the program name. */
  datatype Data = Data(subjects: seq<Subject>, major: string)

  /** The course object of one row (khadory.js, lines 140-151). */
  function PtukSubject(c: Cell): (s: Subject)
    ensures s.idField == UniID && s.id == c.id && s.altName.None?
    ensures s.name == Canonical(Prefix, c.name)
  {
    Subject(UniID, c.id, Canonical(Prefix, c.name), None)
  }

  function PtukSubjects(cs: seq<Cell>): (ss: seq<Subject>)
    ensures |ss| == |cs|
    ensures forall i :: 0 <= i < |cs| ==> ss[i] == PtukSubject(cs[i])
  {
    seq(|cs|, i requires 0 <= i < |cs| => PtukSubject(cs[i]))
  }

  /**
   `scrapeAndGenerateJSON` (khadory.js, lines 119-164): one course per row
   with at least three cells of the tables from index 2 on, and the program
   name, `ptuk_` alone when the title element is missing.
   */
  method ScrapeData(tables: seq<Table>, title: string) returns (d: Data)
    ensures |d.subjects| == |Cells(Flatten(From(tables, StartIndex)), PtukLayout)|
    ensures forall i :: 0 <= i < |d.subjects| ==>
      d.subjects[i] == PtukSubject(Cells(Flatten(From(tables, StartIndex)), PtukLayout)[i])
    ensures d.major == Canonical(Prefix, title)
  {
    var cs := Scrape(tables, StartIndex, PtukLayout);
    d := Data(PtukSubjects(cs), Canonical(Prefix, title));
  }

  /** The first two tables never contribute a course. */
  lemma FirstTablesIgnored(tables: seq<Table>, t0: Table, t1: Table)
    requires |tables| >= 2
    ensures From([t0, t1] + tables[2..], StartIndex) == From(tables, StartIndex)
  {
    assert ([t0, t1] + tables[2..])[2..] == tables[2..];
  }

  /** A missing title element gives the bare prefix (khadory.js, lines 127 and 157). */
  lemma MissingTitle()
    ensures Canonical(Prefix, "") == Prefix
  {
  }

  /** `scrapeLocals` (khadory.js, lines 31-45): second cell to third cell over all rows of all tables. */
  function PtukLocals(rows: seq<Row>): map<string, string> {
    FoldCells(Cells(rows, PtukLayout))
  }

  /** A repeated course number keeps the name of its last row. */
  lemma PtukLocalsLastWins(before: seq<Row>, row: Row, after: seq<Row>)
    requires PtukLayout.Fits(row)
    requires forall i :: 0 <= i < |after| && PtukLayout.Fits(after[i]) ==> Trim(after[i][1]) != Trim(row[1])
    ensures var m := PtukLocals(before + [row] + after);
      Trim(row[1]) in m && m[Trim(row[1])] == Trim(row[2])
  {
    var c := CellOf(row, PtukLayout);
    CellsAppend(before + [row], after, PtukLayout);
    CellsSnoc(before, row, PtukLayout);
    var later := Cells(after, PtukLayout);
    CellsSpec(after, PtukLayout);
    forall j | 0 <= j < |later|
      ensures later[j].id != c.id
    {
      assert later[j] in later;
    }
    FoldCellsLastWins(Cells(before, PtukLayout), c, later);
  }

  /**
   The pairing loop of `mergeFiles` (khadory.js, lines 73-80): every id of the
   English object also in the Arabic one, empty names included.
   */
  function PtukPairs(ar: map<string, string>, en: map<string, string>): (loc: map<string, Both>)
    ensures loc.Keys == en.Keys * ar.Keys
    ensures forall id :: id in loc ==> loc[id] == Both(ar[id], en[id])
  {
    map id | id in en && id in ar :: Both(ar[id], en[id])
  }

  /**
   `combinedMap` (khadory.js, lines 82-92): every paired course under the
   prefixed canonical form of its English name; no program entry.
   */
  function PtukCombine(loc: map<string, Both>, order: seq<string>): (l: Localization)
    requires EnumeratesKeys(order, loc)
  {
    Combine(Empty, Prefix, loc, order)
  }

  /**
   The combined objects share one key set, the canonical English names of the
   paired courses, whatever order the loop visits them in.
   */
  lemma PtukCombineKeys(loc: map<string, Both>, order: seq<string>)
    requires EnumeratesKeys(order, loc)
    ensures Aligned(PtukCombine(loc, order))
    ensures PtukCombine(loc, order).arabic.Keys == CourseKeys(Prefix, loc)
  {
    CombineKeys(Empty, Prefix, loc, order);
  }

  /** Each key holds both names of one course, even when English names collide. */
  lemma PtukCombineCoherent(loc: map<string, Both>, order: seq<string>, k: string)
    requires EnumeratesKeys(order, loc)
    requires k in PtukCombine(loc, order).arabic
    ensures exists id :: FromCourse(PtukCombine(loc, order), Prefix, loc, id, k)
  {
    CombineCoherent(Empty, Prefix, loc, order, k);
  }

  /** `addMajor` (khadory.js, lines 195-220): the program first, then every course upserted. */
  function PtukAddMajor(files: Files, data: Data): (r: Files)
    ensures Evolves(files, r)
    ensures |files| < |r| <= |files| + 1 + |data.subjects|
    ensures r[|files|] == ProgramDoc(data.major, College)
  {
    AddMajor(files, data.major, College, data.subjects)
  }

  /**
   Every course afterwards has a document holding the program reference, and a
   collection with unique course numbers keeps them unique.
   */
  lemma PtukAddMajorSpec(files: Files, data: Data)
    requires forall i :: 0 <= i < |data.subjects| ==> data.subjects[i].idField == UniID
    ensures forall i :: 0 <= i < |data.subjects| ==>
      Holds(PtukAddMajor(files, data), data.subjects[i].id, ProgramRef(files, data.major))
    ensures UniqueUniIDs(files) ==> UniqueUniIDs(PtukAddMajor(files, data))
  {
    var start := files + [ProgramDoc(data.major, College)];
    var ref := ProgramRef(files, data.major);
    UpsertAllHolds(start, data.subjects, ref);
    if UniqueUniIDs(files) {
      assert UniqueUniIDs(start);
      UpsertAllUnique(start, data.subjects, ref);
    }
  }

  /**
   Two rows of one run with the same new course number leave one course
   document with a single parent reference (khadory.js, lines 206-218).
   */
  lemma SharedNumberInOneRun(files: Files, c1: Cell, c2: Cell, major: string)
    requires !Has(files, c1.id) && c1.id == c2.id
    ensures PtukAddMajor(files, Data([PtukSubject(c1), PtukSubject(c2)], major))
         == files + [ProgramDoc(major, College), CourseDoc(PtukSubject(c1), [ProgramRef(files, major)])]
  {
    AddMajorSharedNumber(files, major, College, PtukSubject(c1), PtukSubject(c2));
  }

  /** Dropping the empty-name test is the only difference from polytechnic.js's pairing. */
  lemma PairsWithEmptyNames(ar: map<string, string>, en: map<string, string>, id: string)
    requires id in ar && id in en && (ar[id] == "" || en[id] == "")
    ensures id in PtukPairs(ar, en)
  {
  }
}
