/**
 polytechnic.js: courses from every table (number in the first cell, name in
 the second) under the `ppu_` prefix with the number as `altName`; the
 localisation pairs ids present in both languages with non-empty names; and
 `addMajor`, which is meant to log nameless courses to a miss file instead of
 writing them, both as intended and as written.
 */
module Polytechnic {
  import opened Wrappers
  import opened Text
  import opened Naming
  import opened Tables
  import opened Localize
  import opened Store

  const Prefix := "ppu_"
  const PpuLayout := Layout(0, 1)

  /** The college every program document points to (polytechnic.js, line 282). */
  const College := Ref("ppu_college_of_applied_professions", External("GoMhfZH8jt8GyLTCvlny"))

  /** `data.json`: the courses and the program name. */
  datatype Data = Data(subjects: seq<Subject>, major: string)

  /** The course object of one row (polytechnic.js, lines 172-182). */
  function PpuSubject(c: Cell): (s: Subject)
    ensures s.idField == UniID && s.id == c.id && s.altName == Some(c.id)
    ensures s.name == Canonical(Prefix, c.name)
  {
    Subject(UniID, c.id, Canonical(Prefix, c.name), Some(c.id))
  }

  function PpuSubjects(cs: seq<Cell>): (ss: seq<Subject>)
    ensures |ss| == |cs|
    ensures forall i :: 0 <= i < |cs| ==> ss[i] == PpuSubject(cs[i])
  {
    seq(|cs|, i requires 0 <= i < |cs| => PpuSubject(cs[i]))
  }

  /**
   `scrapeAndGenerateJSON` (polytechnic.js, lines 148-195): one course per row
   with at least two cells, over all tables in order, and the program name.
   */
  method ScrapeData(tables: seq<Table>, title: string) returns (d: Data)
    ensures |d.subjects| == |Cells(Flatten(tables), PpuLayout)|
    ensures forall i :: 0 <= i < |d.subjects| ==> d.subjects[i] == PpuSubject(Cells(Flatten(tables), PpuLayout)[i])
    ensures d.major == Canonical(Prefix, title)
  {
    var cs := Scrape(tables, 0, PpuLayout);
    d := Data(PpuSubjects(cs), Canonical(Prefix, title));
  }

  /** `scrapeLocals` (polytechnic.js, lines 38-49): first cell to second cell over all rows. */
  function PpuLocals(rows: seq<Row>): map<string, string> {
    FoldCells(Cells(rows, PpuLayout))
  }

  /** An id of the row object, read back: it is there exactly when some row with two cells carries it. */
  lemma PpuLocalsKeys(rows: seq<Row>, id: string)
    ensures id in PpuLocals(rows) <==> exists i :: 0 <= i < |rows| && PpuLayout.Fits(rows[i]) && Trim(rows[i][0]) == id
  {
    var cs := Cells(rows, PpuLayout);
    CellsSpec(rows, PpuLayout);
    if id in PpuLocals(rows) {
      var k :| 0 <= k < |cs| && cs[k].id == id;
      assert cs[k] in cs;
      var i :| ReadsAs(rows, PpuLayout, i, cs[k]);
    }
    if exists i :: 0 <= i < |rows| && PpuLayout.Fits(rows[i]) && Trim(rows[i][0]) == id {
      var i :| 0 <= i < |rows| && PpuLayout.Fits(rows[i]) && Trim(rows[i][0]) == id;
      var c := CellOf(rows[i], PpuLayout);
      assert c in cs;
      var k :| 0 <= k < |cs| && cs[k] == c;
    }
  }

  /**
   The pairing loop of `mergeFiles` (polytechnic.js, lines 87-97): the ids of
   the English object also in the Arabic one, unless either name is empty.
   */
  function PpuPairs(ar: map<string, string>, en: map<string, string>): (loc: map<string, Both>)
    ensures forall id :: id in loc <==> id in en && id in ar && en[id] != "" && ar[id] != ""
    ensures forall id :: id in loc ==> loc[id] == Both(ar[id], en[id])
  {
    map id | id in en && id in ar && en[id] != "" && ar[id] != "" :: Both(ar[id], en[id])
  }

  /**
   `combinedMap` (polytechnic.js, lines 99-110): the program under the key of
   the English title, then every paired course under its canonical English
   name.
   */
  function PpuCombine(title: string, titleAr: string, titleEn: string, loc: map<string, Both>, order: seq<string>): (l: Localization)
    requires EnumeratesKeys(order, loc)
  {
    Combine(Single(Canonical(Prefix, title), titleAr, titleEn), Prefix, loc, order)
  }

  /**
   The combined objects share one key set, the program key plus the canonical
   English name of every paired course, whatever order the loop visits them
   in; each key's Arabic and English values come from one course, or both
   from the program titles, even when two English names share a canonical
   form.
   */
  lemma PpuCombineSpec(title: string, titleAr: string, titleEn: string, loc: map<string, Both>, order: seq<string>, k: string)
    requires EnumeratesKeys(order, loc)
    ensures var l := PpuCombine(title, titleAr, titleEn, loc, order);
      && Aligned(l)
      && l.arabic.Keys == {Canonical(Prefix, title)} + CourseKeys(Prefix, loc)
    ensures var l := PpuCombine(title, titleAr, titleEn, loc, order);
      k in l.arabic ==>
      || (exists id :: FromCourse(l, Prefix, loc, id, k))
      || (k == Canonical(Prefix, title) && l.arabic[k] == titleAr && l.english[k] == titleEn)
  {
    var init := Single(Canonical(Prefix, title), titleAr, titleEn);
    CombineKeys(init, Prefix, loc, order);
    if k in PpuCombine(title, titleAr, titleEn, loc, order).arabic {
      CombineCoherent(init, Prefix, loc, order, k);
    }
  }

  /** The miss file: course number to the programs it was missing from. */
  type MissLog = map<string, seq<Ref>>

  /**
   `addObjectToFile` (polytechnic.js, lines 254-260): the reference is appended
   to the key's list, which a new key starts empty; no other key changes.
   */
  function AddObjectToFile(log: MissLog, key: string, ref: Ref): (r: MissLog)
    ensures r.Keys == log.Keys + {key}
    ensures key in log ==> r[key] == log[key] + [ref]
    ensures key !in log ==> r[key] == [ref]
    ensures forall k :: k in log && k != key ==> r[k] == log[k]
  {
    if key in log then log[key := log[key] + [ref]] else log[key := [ref]]
  }

  /** The list keeps duplicates: logging the same reference twice records it twice. */
  lemma AddObjectToFileTwice(log: MissLog, key: string, ref: Ref)
    requires key !in log
    ensures AddObjectToFile(AddObjectToFile(log, key, ref), key, ref)[key] == [ref, ref]
  {
  }

  /** The test of polytechnic.js, line 285. */
  predicate IsMissName(name: string) {
    name == "ppu_" || name == "ppu_ " || name == ""
  }

  /**
   A course goes to the miss file exactly when its trimmed name cell is empty:
   the canonical form never holds a space and never loses the prefix.
   */
  lemma MissIffNameEmpty(row: Row)
    requires PpuLayout.Fits(row)
    ensures IsMissName(PpuSubject(CellOf(row, PpuLayout)).name) <==> Trim(row[1]) == ""
  {
    var name := Trim(row[1]);
    MissIffSnakeEmpty(SnakeCase(name));
    TrimIdempotent(row[1]);
  }

  lemma MissIffSnakeEmpty(sc: string)
    requires IsSnake(sc)
    ensures IsMissName(Prefix + sc) <==> sc == []
  {
    var n := Prefix + sc;
    if |sc| == 1 {
      assert n[4] == sc[0];
      assert IsSnakeChar(sc[0]);
      assert n[4] != "ppu_ "[4];
    }
    if sc == [] {
      assert n == "ppu_";
    }
  }

  /** The state `addMajor` leaves: the collection and the miss file. */
  datatype Outcome = Outcome(files: Files, miss: MissLog)

  /** The course loop of `addMajor` (polytechnic.js, lines 284-301). */
  function PpuCourses(files: Files, miss: MissLog, subjects: seq<Subject>, ref: Ref): (o: Outcome)
    ensures Evolves(files, o.files)
    ensures o.miss.Keys == miss.Keys + set i | 0 <= i < |subjects| && IsMissName(subjects[i].name) :: subjects[i].id
    decreases |subjects|
  {
    if subjects == [] then Outcome(files, miss)
    else
      var s := subjects[0];
      var o := if IsMissName(s.name)
        then PpuCourses(files, AddObjectToFile(miss, s.id, ref), subjects[1..], ref)
        else PpuCourses(Upsert(files, s, ref), miss, subjects[1..], ref);
      MissKeysCons(subjects);
      assert Evolves(files, o.files) by {
        if !IsMissName(s.name) {
          EvolvesTrans(files, Upsert(files, s, ref), o.files);
        }
      }
      o
  }

  /** The courses that are not missing, in order. */
  function Written(subjects: seq<Subject>): (ws: seq<Subject>)
    ensures forall s :: s in ws <==> s in subjects && !IsMissName(s.name)
  {
    if subjects == [] then []
    else (if IsMissName(subjects[0].name) then [] else [subjects[0]]) + Written(subjects[1..])
  }

  function MissKeys(subjects: seq<Subject>): set<string> {
    set i | 0 <= i < |subjects| && IsMissName(subjects[i].name) :: subjects[i].id
  }

  lemma MissKeysCons(subjects: seq<Subject>)
    requires subjects != []
    ensures MissKeys(subjects) == MissKeys(subjects[1..]) + (if IsMissName(subjects[0].name) then {subjects[0].id} else {})
  {
    var tail := subjects[1..];
    assert forall i :: 0 <= i < |tail| ==> tail[i] == subjects[i + 1];
    forall k | k in MissKeys(subjects)
      ensures k in MissKeys(tail) || (IsMissName(subjects[0].name) && k == subjects[0].id)
    {
      var i :| 0 <= i < |subjects| && IsMissName(subjects[i].name) && subjects[i].id == k;
      if i > 0 {
        assert tail[i - 1] == subjects[i];
      }
    }
    forall k | k in MissKeys(tail)
      ensures k in MissKeys(subjects)
    {
      var i :| 0 <= i < |tail| && IsMissName(tail[i].name) && tail[i].id == k;
      assert subjects[i + 1] == tail[i];
    }
  }

  /**
   The miss branch never touches the collection: the loop writes exactly what
   the shared upsert loop writes for the courses that are not missing.
   */
  lemma {:induction false} PpuCoursesWritten(files: Files, miss: MissLog, subjects: seq<Subject>, ref: Ref)
    ensures PpuCourses(files, miss, subjects, ref).files == UpsertAll(files, Written(subjects), ref)
    decreases |subjects|
  {
    if subjects != [] {
      var s := subjects[0];
      if IsMissName(s.name) {
        PpuCoursesWritten(files, AddObjectToFile(miss, s.id, ref), subjects[1..], ref);
        assert Written(subjects) == Written(subjects[1..]);
      } else {
        PpuCoursesWritten(Upsert(files, s, ref), miss, subjects[1..], ref);
        assert Written(subjects) == [s] + Written(subjects[1..]);
        assert ([s] + Written(subjects[1..]))[1..] == Written(subjects[1..]);
      }
    }
  }

  /**
   `addMajor` (polytechnic.js, lines 273-302): the program document first,
   then each course either logged as missing or upserted under its number.
   */
  function PpuAddMajor(files: Files, miss: MissLog, data: Data): (o: Outcome)
    ensures Evolves(files, o.files) && |o.files| > |files|
    ensures o.files[|files|] == ProgramDoc(data.major, College)
    ensures o.miss.Keys == miss.Keys + MissKeys(data.subjects)
  {
    var start := files + [ProgramDoc(data.major, College)];
    var o := PpuCourses(start, miss, data.subjects, ProgramRef(files, data.major));
    assert Evolves(files, start);
    EvolvesTrans(files, start, o.files);
    o
  }

  /**
   After `addMajor` every course with a name is held under its number with the
   program reference, and the collection is exactly the shared `addMajor`
   over those courses.
   */
  lemma PpuAddMajorWrites(files: Files, miss: MissLog, data: Data)
    ensures PpuAddMajor(files, miss, data).files == AddMajor(files, data.major, College, Written(data.subjects))
    ensures forall s :: s in data.subjects && !IsMissName(s.name) && s.idField == UniID ==>
      Holds(PpuAddMajor(files, miss, data).files, s.id, ProgramRef(files, data.major))
  {
    var start := files + [ProgramDoc(data.major, College)];
    var ref := ProgramRef(files, data.major);
    PpuCoursesWritten(start, miss, data.subjects, ref);
    var ws := Written(data.subjects);
    UpsertAllHolds(start, ws, ref);
    forall s | s in data.subjects && !IsMissName(s.name) && s.idField == UniID
      ensures Holds(UpsertAll(start, ws, ref), s.id, ref)
    {
      var i :| 0 <= i < |ws| && ws[i] == s;
    }
  }

  /**
   What the course loop leaves as written: the collection and the miss file
   (`None` when absent), and, when the run stops early, the course it stopped at.
   */
  datatype Run = Finished(files: Files, miss: Option<MissLog>) | Aborted(files: Files, miss: Option<MissLog>, at: nat)

  /**
   The course loop of `addMajor` as written (polytechnic.js, lines 239-269 and
   284-301). `addObjectToFile` hands its update to the promise form of
   `readFile` as a callback, which that form never calls: the miss file is
   never changed. When the file is absent the awaited read rejects, and the
   run stops at the first course with an empty name.
   */
  function PpuCoursesAsWritten(files: Files, missFile: Option<MissLog>, subjects: seq<Subject>, ref: Ref): (r: Run)
    ensures Evolves(files, r.files) && r.miss == missFile
    ensures r.Aborted? ==> missFile.None? && r.at < |subjects| && IsMissName(subjects[r.at].name)
    ensures r.Aborted? ==> forall i :: 0 <= i < r.at ==> !IsMissName(subjects[i].name)
    ensures r.Finished? ==> missFile.Some? || forall i :: 0 <= i < |subjects| ==> !IsMissName(subjects[i].name)
    decreases |subjects|
  {
    if subjects == [] then Finished(files, missFile)
    else
      var s := subjects[0];
      if IsMissName(s.name) && missFile.None? then Aborted(files, missFile, 0)
      else
        var f := if IsMissName(s.name) then files else Upsert(files, s, ref);
        var r := PpuCoursesAsWritten(f, missFile, subjects[1..], ref);
        EvolvesTrans(files, f, r.files);
        if r.Aborted? then
          assert subjects[r.at + 1] == subjects[1..][r.at];
          NamedShift(subjects, r.at);
          r.(at := r.at + 1)
        else
          if missFile.None? then NamedShift(subjects, |subjects| - 1); r else r
  }

  /** A named first course followed by `n` named ones: the first `n + 1` are named. */
  lemma NamedShift(subjects: seq<Subject>, n: nat)
    requires subjects != [] && !IsMissName(subjects[0].name) && n < |subjects|
    requires forall i :: 0 <= i < n ==> !IsMissName(subjects[1..][i].name)
    ensures forall i :: 0 <= i < n + 1 ==> !IsMissName(subjects[i].name)
  {
    assert forall i :: 1 <= i < n + 1 ==> subjects[i] == subjects[1..][i - 1];
  }

  /**
   With the miss file present the run finishes and writes the collection as
   intended, but the file keeps its old contents.
   */
  lemma AsWrittenWrites(files: Files, log: MissLog, subjects: seq<Subject>, ref: Ref)
    ensures PpuCoursesAsWritten(files, Some(log), subjects, ref)
         == Finished(PpuCourses(files, log, subjects, ref).files, Some(log))
  {
    AsWrittenUpserts(files, log, subjects, ref);
    PpuCoursesWritten(files, log, subjects, ref);
  }

  lemma {:induction false} AsWrittenUpserts(files: Files, log: MissLog, subjects: seq<Subject>, ref: Ref)
    ensures PpuCoursesAsWritten(files, Some(log), subjects, ref) == Finished(UpsertAll(files, Written(subjects), ref), Some(log))
    decreases |subjects|
  {
    if subjects != [] {
      var s := subjects[0];
      if IsMissName(s.name) {
        AsWrittenUpserts(files, log, subjects[1..], ref);
        assert Written(subjects) == Written(subjects[1..]);
      } else {
        AsWrittenUpserts(Upsert(files, s, ref), log, subjects[1..], ref);
        assert Written(subjects) == [s] + Written(subjects[1..]);
        assert ([s] + Written(subjects[1..]))[1..] == Written(subjects[1..]);
      }
    }
  }

  /**
   The discrepancy: a nameless course whose number the miss file lacks is
   recorded by the intended loop, while the file as written stays as it was.
   */
  lemma MissLogLost(files: Files, log: MissLog, subjects: seq<Subject>, ref: Ref, i: int)
    requires 0 <= i < |subjects| && IsMissName(subjects[i].name) && subjects[i].id !in log
    ensures PpuCoursesAsWritten(files, Some(log), subjects, ref).miss == Some(log)
    ensures subjects[i].id in PpuCourses(files, log, subjects, ref).miss
  {
  }

  /**
   With no miss file the run stops at the first nameless course `k`: the
   courses before it are upserted, none after it is written.
   */
  lemma {:induction false} AbortsAtFirstMiss(files: Files, subjects: seq<Subject>, ref: Ref, k: nat)
    requires k < |subjects| && IsMissName(subjects[k].name)
    requires forall i :: 0 <= i < k ==> !IsMissName(subjects[i].name)
    ensures PpuCoursesAsWritten(files, None, subjects, ref) == Aborted(UpsertAll(files, subjects[..k], ref), None, k)
    decreases k
  {
    if k > 0 {
      var s := subjects[0];
      var tail := subjects[1..];
      FirstMissStep(subjects, k);
      AbortsAtFirstMiss(Upsert(files, s, ref), tail, ref, k - 1);
      AsWrittenStep(files, subjects, ref);
      UpsertAllPrefix(files, subjects, ref, k);
    }
  }

  /** Course `k` being the first nameless one, course `k - 1` of the rest is. */
  lemma FirstMissStep(subjects: seq<Subject>, k: nat)
    requires 0 < k < |subjects| && IsMissName(subjects[k].name)
    requires forall i :: 0 <= i < k ==> !IsMissName(subjects[i].name)
    ensures IsMissName(subjects[1..][k - 1].name)
    ensures forall i :: 0 <= i < k - 1 ==> !IsMissName(subjects[1..][i].name)
  {
    assert forall i :: 0 <= i < k - 1 ==> subjects[1..][i] == subjects[i + 1];
  }

  /** A course with a name is upserted and the loop goes on with the rest. */
  lemma AsWrittenStep(files: Files, subjects: seq<Subject>, ref: Ref)
    requires subjects != [] && !IsMissName(subjects[0].name)
    ensures var r := PpuCoursesAsWritten(Upsert(files, subjects[0], ref), None, subjects[1..], ref);
      PpuCoursesAsWritten(files, None, subjects, ref) == if r.Aborted? then r.(at := r.at + 1) else r
  {
  }

  lemma UpsertAllPrefix(files: Files, subjects: seq<Subject>, ref: Ref, k: nat)
    requires 0 < k <= |subjects|
    ensures UpsertAll(files, subjects[..k], ref) == UpsertAll(Upsert(files, subjects[0], ref), subjects[1..][..k - 1], ref)
  {
    assert subjects[..k][0] == subjects[0];
    assert subjects[..k][1..] == subjects[1..][..k - 1];
  }

  /** `addMajor` as written: the program document, then the loop above. */
  function PpuAddMajorAsWritten(files: Files, missFile: Option<MissLog>, data: Data): (r: Run)
    ensures Evolves(files, r.files) && |r.files| > |files|
    ensures r.files[|files|] == ProgramDoc(data.major, College)
    ensures r.miss == missFile
  {
    var start := files + [ProgramDoc(data.major, College)];
    var r := PpuCoursesAsWritten(start, missFile, data.subjects, ProgramRef(files, data.major));
    assert Evolves(files, start);
    EvolvesTrans(files, start, r.files);
    r
  }

  /** With the miss file present, `addMajor` as written writes what the intended one writes. */
  lemma PpuAddMajorAsWrittenFiles(files: Files, log: MissLog, data: Data)
    ensures PpuAddMajorAsWritten(files, Some(log), data) == Finished(PpuAddMajor(files, log, data).files, Some(log))
  {
    AsWrittenWrites(files + [ProgramDoc(data.major, College)], log, data.subjects, ProgramRef(files, data.major));
  }

}
