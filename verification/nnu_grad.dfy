/**
 nnu_grad.js: courses from every table (number in the first cell, name in
 the second) with unprefixed canonical names and the number stored under
 `uniId`; the names written one per line and re-aligned line by line; and an
 `addMajor` that looks courses up under `uniID`, so it never finds its own
 documents, and whose update branch names an undefined `FirebaseFirestore`.
 */
module NnuGrad {
  import opened Wrappers
  import opened Text
  import opened Naming
  import opened Tables
  import opened Localize
  import opened Store
  import opened Urls

  const MajorPrefix := "grad_"
  const GradLayout := Layout(0, 1)
  const StudyPlan := "study-plan/"

  /** The faculty every program document points to (nnu_grad.js, line 197). */
  const College := Ref("faculty_of_graduate_studies", External("hHAPRX60s2zxPsgjFNzx"))

  /** `data.json`: the courses and the program name. */
  datatype Data = Data(subjects: seq<Subject>, major: string)

  /** The course object of one row (nnu_grad.js, lines 134-145): `uniId`, no prefix. */
  function GradSubject(c: Cell): (s: Subject)
    ensures s.idField == UniId && s.id == c.id && s.altName.None?
    ensures s.name == SnakeCase(c.name) && IsSnake(s.name)
  {
    Subject(UniId, c.id, SnakeCase(c.name), None)
  }

  function GradSubjects(cs: seq<Cell>): (ss: seq<Subject>)
    ensures |ss| == |cs|
    ensures forall i :: 0 <= i < |cs| ==> ss[i] == GradSubject(cs[i])
  {
    seq(|cs|, i requires 0 <= i < |cs| => GradSubject(cs[i]))
  }

  /**
   `scrapeAndGenerateJSON` (nnu_grad.js, lines 115-158): one course per row
   with at least two cells over all tables, and the program under `grad_`.
   */
  method ScrapeData(tables: seq<Table>, title: string) returns (d: Data)
    ensures |d.subjects| == |Cells(Flatten(tables), GradLayout)|
    ensures forall i :: 0 <= i < |d.subjects| ==> d.subjects[i] == GradSubject(Cells(Flatten(tables), GradLayout)[i])
    ensures d.major == Canonical(MajorPrefix, title)
  {
    var cs := Scrape(tables, 0, GradLayout);
    d := Data(GradSubjects(cs), Canonical(MajorPrefix, title));
  }

  /** The names `scrapeLocals` collects (nnu_grad.js, lines 29-42): the trimmed second cell, row by row. */
  function GradNames(rows: seq<Row>): (names: seq<string>)
    ensures |names| == |Cells(rows, GradLayout)|
    ensures forall i :: 0 <= i < |names| ==> names[i] == Cells(rows, GradLayout)[i].name
  {
    var cs := Cells(rows, GradLayout);
    seq(|cs|, i requires 0 <= i < |cs| => cs[i].name)
  }

  /** The text file of names (nnu_grad.js, line 46). */
  function NamesFile(names: seq<string>): string {
    Join(names, '\n')
  }

  /**
   Reading the file back (nnu_grad.js, lines 64-65) gives the names again when
   there is at least one and none holds a line break.
   */
  lemma NamesFileRoundTrip(names: seq<string>)
    requires |names| >= 1
    requires forall i :: 0 <= i < |names| ==> '\n' !in names[i]
    ensures Split(NamesFile(names), '\n') == names
  {
    SplitJoin(names, '\n');
  }

  /** A page without name rows still reads back as one empty line. */
  lemma EmptyNamesFile()
    ensures Split(NamesFile([]), '\n') == [""]
  {
  }

  /** The write of line `i`: key, trimmed Arabic line, trimmed English line. */
  function LinePairing(ar: seq<string>, en: seq<string>, i: int): Pairing
    requires 0 <= i < |ar| == |en|
  {
    Pairing(SnakeCase(Trim(en[i])), Trim(ar[i]), Trim(en[i]))
  }

  /** Line `i` has a non-empty English text. */
  predicate Written(en: seq<string>, i: int) {
    0 <= i < |en| && Trim(en[i]) != ""
  }

  /** The elements of `xs` whose flag is set, in order. */
  function Select<T>(xs: seq<T>, keep: seq<bool>): (r: seq<T>)
    requires |xs| == |keep|
    ensures |r| <= |xs|
  {
    if xs == [] then []
    else
      var n := |xs| - 1;
      var rest := Select(xs[..n], keep[..n]);
      if keep[n] then rest + [xs[n]] else rest
  }

  /** Element `j` of `r` is some element of `xs` whose flag is set. */
  predicate Picked<T(==)>(xs: seq<T>, keep: seq<bool>, r: seq<T>, j: int)
    requires |xs| == |keep|
  {
    0 <= j < |r| && exists i :: 0 <= i < |xs| && keep[i] && r[j] == xs[i]
  }

  /** The selection holds the flagged elements and nothing else. */
  lemma {:induction false} SelectSpec<T>(xs: seq<T>, keep: seq<bool>)
    requires |xs| == |keep|
    ensures forall j :: 0 <= j < |Select(xs, keep)| ==> Picked(xs, keep, Select(xs, keep), j)
    ensures forall i :: 0 <= i < |xs| && keep[i] ==> xs[i] in Select(xs, keep)
  {
    if xs != [] {
      var n := |xs| - 1;
      var rest := Select(xs[..n], keep[..n]);
      var r := Select(xs, keep);
      SelectSpec(xs[..n], keep[..n]);
      assert r[..|rest|] == rest;
      forall j | 0 <= j < |r|
        ensures Picked(xs, keep, r, j)
      {
        if j < |rest| {
          assert Picked(xs[..n], keep[..n], rest, j);
          var i :| 0 <= i < n && keep[..n][i] && rest[j] == xs[..n][i];
          assert keep[i] && r[j] == xs[i];
        } else {
          assert keep[n] && r[j] == xs[n];
        }
      }
      forall i | 0 <= i < |xs| && keep[i]
        ensures xs[i] in r
      {
        if i < n {
          assert xs[..n][i] in rest;
        }
      }
    }
  }

  /** The positions whose flag is set, in increasing order. */
  function Positions(keep: seq<bool>): (idx: seq<nat>)
    ensures forall j :: 0 <= j < |idx| ==> idx[j] < |keep| && keep[idx[j]]
    ensures forall a, b :: 0 <= a < b < |idx| ==> idx[a] < idx[b]
    ensures forall i :: 0 <= i < |keep| && keep[i] ==> i in idx
  {
    if keep == [] then []
    else
      var n := |keep| - 1;
      var rest := Positions(keep[..n]);
      assert forall j :: 0 <= j < |rest| ==> keep[rest[j]] == keep[..n][rest[j]];
      assert forall i :: 0 <= i < n && keep[i] ==> keep[..n][i];
      if keep[n] then rest + [n] else rest
  }

  /**
   The selection keeps the order of `xs`: its element `j` is the element at
   the `j`-th flagged position.
   */
  lemma {:induction false} SelectInOrder<T>(xs: seq<T>, keep: seq<bool>)
    requires |xs| == |keep|
    ensures |Select(xs, keep)| == |Positions(keep)|
    ensures forall j :: 0 <= j < |Positions(keep)| ==> Select(xs, keep)[j] == xs[Positions(keep)[j]]
  {
    if xs != [] {
      var n := |xs| - 1;
      SelectInOrder(xs[..n], keep[..n]);
      var rest, idx := Positions(keep[..n]), Positions(keep);
      forall j | 0 <= j < |idx|
        ensures Select(xs, keep)[j] == xs[idx[j]]
      {
        if j < |rest| {
          assert idx[j] == rest[j];
          assert xs[..n][rest[j]] == xs[rest[j]];
        }
      }
    }
  }

  /** The write each line would make. */
  function Lines(ar: seq<string>, en: seq<string>): (ps: seq<Pairing>)
    requires |ar| == |en|
    ensures |ps| == |en|
    ensures forall i :: 0 <= i < |en| ==> ps[i] == LinePairing(ar, en, i)
  {
    seq(|en|, i requires 0 <= i < |en| => LinePairing(ar, en, i))
  }

  /** Which lines write: those whose English text is not empty once trimmed. */
  function Kept(en: seq<string>): (keep: seq<bool>)
    ensures |keep| == |en|
    ensures forall i :: 0 <= i < |en| ==> (keep[i] <==> Written(en, i))
  {
    seq(|en|, i requires 0 <= i < |en| => Trim(en[i]) != "")
  }

  /** The writes of the aligning loop (nnu_grad.js, lines 75-84), in line order. */
  function LinePairings(ar: seq<string>, en: seq<string>): (ps: seq<Pairing>)
    requires |ar| == |en|
  {
    Select(Lines(ar, en), Kept(en))
  }

  /** The two objects the aligning loop builds from equally long line lists. */
  function AlignLines(ar: seq<string>, en: seq<string>): (l: Localization)
    requires |ar| == |en|
    ensures Aligned(l)
  {
    Build(Empty, LinePairings(ar, en))
  }

  /**
   `mergeFiles` (nnu_grad.js, lines 58-97): nothing when the two files have
   different line counts, otherwise the two objects built line by line.
   */
  function GradMergeFiles(arContent: string, enContent: string): (r: Option<Localization>)
    ensures r.None? <==> |Split(arContent, '\n')| != |Split(enContent, '\n')|
    ensures r.Some? ==> r.value == AlignLines(Split(arContent, '\n'), Split(enContent, '\n'))
  {
    var ar := Split(arContent, '\n');
    var en := Split(enContent, '\n');
    if |ar| != |en| then None else Some(AlignLines(ar, en))
  }

  /** Key `k` of `l` holds the two trimmed texts of line `i`. */
  predicate FromLine(l: Localization, ar: seq<string>, en: seq<string>, i: int, k: string)
    requires |ar| == |en|
  {
    && Written(en, i) && SnakeCase(Trim(en[i])) == k
    && k in l.arabic && k in l.english
    && l.arabic[k] == Trim(ar[i]) && l.english[k] == Trim(en[i])
  }

  /**
   A key is present exactly when some line with non-empty English text has it
   as canonical form; a line with empty English text writes nothing.
   */
  lemma AlignLinesKeys(ar: seq<string>, en: seq<string>)
    requires |ar| == |en|
    ensures forall k :: k in AlignLines(ar, en).arabic <==> exists i :: Written(en, i) && SnakeCase(Trim(en[i])) == k
  {
    var ps := LinePairings(ar, en);
    SelectSpec(Lines(ar, en), Kept(en));
    forall i | Written(en, i)
      ensures SnakeCase(Trim(en[i])) in AlignLines(ar, en).arabic
    {
      assert Lines(ar, en)[i] in ps;
      var j :| 0 <= j < |ps| && ps[j] == Lines(ar, en)[i];
      assert ps[j].key in Keys(ps);
    }
    forall k | k in AlignLines(ar, en).arabic
      ensures exists i :: Written(en, i) && SnakeCase(Trim(en[i])) == k
    {
      var j :| 0 <= j < |ps| && ps[j].key == k;
      assert Picked(Lines(ar, en), Kept(en), ps, j);
    }
  }

  /** No line after line `i` with English text has the canonical form `k`. */
  predicate LastLine(en: seq<string>, i: int, k: string) {
    forall m :: i < m < |en| && Written(en, m) ==> SnakeCase(Trim(en[m])) != k
  }

  /**
   Each key holds the two trimmed texts of one line: the last line whose
   English text has that canonical form, since a later line overwrites both
   values of an earlier one.
   */
  lemma AlignLinesCoherent(ar: seq<string>, en: seq<string>, k: string)
    requires |ar| == |en|
    requires k in AlignLines(ar, en).arabic
    ensures exists i :: FromLine(AlignLines(ar, en), ar, en, i, k) && LastLine(en, i, k)
  {
    var lines, keep := Lines(ar, en), Kept(en);
    var ps := LinePairings(ar, en);
    var l := Build(Empty, ps);
    SelectInOrder(lines, keep);
    BuildCoherent(Empty, ps, k);
    var j :| IsLastKey(ps, k, j) && l.arabic[k] == ps[j].arabic && l.english[k] == ps[j].english;
    var i := Positions(keep)[j];
    assert ps[j] == lines[i];
    assert FromLine(l, ar, en, i, k);
    LastWriteIsLastLine(ar, en, j, k);
  }

  /** The last write under `k` comes from the last line with that canonical form. */
  lemma LastWriteIsLastLine(ar: seq<string>, en: seq<string>, j: int, k: string)
    requires |ar| == |en|
    requires IsLastKey(LinePairings(ar, en), k, j)
    ensures |Positions(Kept(en))| == |LinePairings(ar, en)|
    ensures LastLine(en, Positions(Kept(en))[j], k)
  {
    var lines, keep := Lines(ar, en), Kept(en);
    var ps := LinePairings(ar, en);
    var idx := Positions(keep);
    SelectInOrder(lines, keep);
    forall m | idx[j] < m < |en| && Written(en, m)
      ensures SnakeCase(Trim(en[m])) != k
    {
      var t := LaterPosition(keep, j, m);
      assert ps[t] == lines[m];
    }
  }

  /** A flagged position after the `j`-th one is some later one of them. */
  lemma LaterPosition(keep: seq<bool>, j: int, m: int) returns (t: int)
    requires 0 <= j < |Positions(keep)| && Positions(keep)[j] < m < |keep| && keep[m]
    ensures j < t < |Positions(keep)| && Positions(keep)[t] == m
  {
    var idx := Positions(keep);
    t :| 0 <= t < |idx| && idx[t] == m;
  }

  /**
   The two name files of one program align whenever both pages list the same
   number of names and no name holds a line break.
   */
  lemma ScrapedNamesAlign(arNames: seq<string>, enNames: seq<string>)
    requires |arNames| == |enNames|
    requires forall i :: 0 <= i < |arNames| ==> '\n' !in arNames[i]
    requires forall i :: 0 <= i < |enNames| ==> '\n' !in enNames[i]
    ensures GradMergeFiles(NamesFile(arNames), NamesFile(enNames)).Some?
  {
    if |arNames| > 0 {
      NamesFileRoundTrip(arNames);
      NamesFileRoundTrip(enNames);
    }
  }

  /** What `addMajor` ends in: the loop finishing, or the update branch throwing at course `at`. */
  datatype GradOutcome = Completed(files: Files) | Threw(files: Files, at: nat)

  /**
   The course loop of `addMajor` as written (nnu_grad.js, lines 199-212): the
   query filters on `uniID`; a hit reaches `FirebaseFirestore`, which is not
   defined, and the loop stops there; a miss adds a new document.
   */
  function GradCourses(files: Files, subjects: seq<Subject>, ref: Ref): (o: GradOutcome)
    ensures |o.files| == |files| + (if o.Threw? then o.at else |subjects|)
    ensures o.Threw? ==> o.at < |subjects| && Has(o.files, subjects[o.at].id)
    decreases |subjects|
  {
    if subjects == [] then Completed(files)
    else if Has(files, subjects[0].id) then Threw(files, 0)
    else
      match GradCourses(files + [CourseDoc(subjects[0], [ref])], subjects[1..], ref)
      case Completed(f) => Completed(f)
      case Threw(f, at) => Threw(f, at + 1)
  }

  /** The courses a run adds, each as its own document with the single parent. */
  function Fresh(subjects: seq<Subject>, ref: Ref): (docs: Files)
    ensures |docs| == |subjects|
    ensures forall i :: 0 <= i < |subjects| ==> docs[i] == CourseDoc(subjects[i], [ref])
  {
    seq(|subjects|, i requires 0 <= i < |subjects| => CourseDoc(subjects[i], [ref]))
  }

  /** The documents of a run are its first course's document, then the rest. */
  lemma FreshCons(files: Files, subjects: seq<Subject>, ref: Ref)
    requires subjects != []
    ensures files + Fresh(subjects, ref) == (files + [CourseDoc(subjects[0], [ref])]) + Fresh(subjects[1..], ref)
  {
    FreshHead(subjects, ref);
    var d, rest := CourseDoc(subjects[0], [ref]), Fresh(subjects[1..], ref);
    assert (files + [d]) + rest == files + ([d] + rest);
  }

  lemma FreshHead(subjects: seq<Subject>, ref: Ref)
    requires subjects != []
    ensures Fresh(subjects, ref) == [CourseDoc(subjects[0], [ref])] + Fresh(subjects[1..], ref)
  {
    var a, b := Fresh(subjects, ref), [CourseDoc(subjects[0], [ref])] + Fresh(subjects[1..], ref);
    forall i | 0 <= i < |a|
      ensures a[i] == b[i]
    {
      if i > 0 {
        assert b[i] == Fresh(subjects[1..], ref)[i - 1];
        assert subjects[1..][i - 1] == subjects[i];
      }
    }
  }

  /** Adding a document stored under `uniId` keeps every number absent from `uniID`. */
  lemma StillAbsent(files: Files, subjects: seq<Subject>, ref: Ref)
    requires subjects != []
    requires forall i :: 0 <= i < |subjects| ==> subjects[i].idField == UniId && !Has(files, subjects[i].id)
    ensures var f := files + [CourseDoc(subjects[0], [ref])];
      forall i :: 0 <= i < |subjects[1..]| ==> subjects[1..][i].idField == UniId && !Has(f, subjects[1..][i].id)
  {
    var d := CourseDoc(subjects[0], [ref]);
    forall i | 0 <= i < |subjects[1..]|
      ensures subjects[1..][i].idField == UniId && !Has(files + [d], subjects[1..][i].id)
    {
      assert subjects[1..][i] == subjects[i + 1];
      HasUnnumbered(files, d, subjects[i + 1].id);
    }
  }

  /** A course whose number is absent is added and the loop goes on with the rest. */
  lemma GradCoursesMiss(files: Files, subjects: seq<Subject>, ref: Ref)
    requires subjects != [] && !Has(files, subjects[0].id)
    requires GradCourses(files + [CourseDoc(subjects[0], [ref])], subjects[1..], ref).Completed?
    ensures GradCourses(files, subjects, ref) == GradCourses(files + [CourseDoc(subjects[0], [ref])], subjects[1..], ref)
  {
  }

  /**
   With numbers under `uniId`, no course document the loop adds is ever found
   again: if no course number is present under `uniID`, every course is added
   as a new document, duplicates included.
   */
  lemma {:induction false} GradCoursesAppendAll(files: Files, subjects: seq<Subject>, ref: Ref)
    requires forall i :: 0 <= i < |subjects| ==> subjects[i].idField == UniId && !Has(files, subjects[i].id)
    ensures GradCourses(files, subjects, ref) == Completed(files + Fresh(subjects, ref))
    decreases |subjects|
  {
    if subjects != [] {
      var f := files + [CourseDoc(subjects[0], [ref])];
      StillAbsent(files, subjects, ref);
      GradCoursesAppendAll(f, subjects[1..], ref);
      GradCoursesMiss(files, subjects, ref);
      FreshCons(files, subjects, ref);
    }
  }

  /** `addMajor` as written (nnu_grad.js, lines 188-213). */
  function GradAddMajor(files: Files, data: Data): (o: GradOutcome)
    ensures |o.files| > |files| && o.files[|files|] == ProgramDoc(data.major, College)
  {
    var start := files + [ProgramDoc(data.major, College)];
    var o := GradCourses(start, data.subjects, ProgramRef(files, data.major));
    GradCoursesKeepsPrefix(start, data.subjects, ProgramRef(files, data.major));
    o
  }

  lemma {:induction false} GradCoursesKeepsPrefix(files: Files, subjects: seq<Subject>, ref: Ref)
    ensures GradCourses(files, subjects, ref).files[..|files|] == files
    decreases |subjects|
  {
    if subjects != [] && !Has(files, subjects[0].id) {
      var f := files + [CourseDoc(subjects[0], [ref])];
      GradCoursesKeepsPrefix(f, subjects[1..], ref);
      assert f[..|files|] == files;
    }
  }

  /**
   Running the same program twice over a collection that does not hold its
   course number leaves two course documents with that number under `uniId`:
   the second lookup, on `uniID`, misses the first document.
   */
  lemma GradRerunDuplicates(files: Files, c: Cell, major: string)
    requires !Has(files, c.id)
    ensures var s := GradSubject(c);
      var data := Data([s], major);
      var r1 := GradAddMajor(files, data);
      var r2 := GradAddMajor(r1.files, data);
      && r1 == Completed(files + [ProgramDoc(major, College), CourseDoc(s, [ProgramRef(files, major)])])
      && r2 == Completed(r1.files + [ProgramDoc(major, College), CourseDoc(s, [ProgramRef(r1.files, major)])])
      && r2.files[|files| + 1].uniId == Some(c.id) && r2.files[|files| + 3].uniId == Some(c.id)
  {
    var s := GradSubject(c);
    var p := ProgramDoc(major, College);
    var data := Data([s], major);
    GradRunOnce(files, s, major);
    var f1 := GradAddMajor(files, data).files;
    var d1 := CourseDoc(s, [ProgramRef(files, major)]);
    assert !Has(f1, s.id) by {
      HasUnnumbered(files, p, s.id);
      assert f1 == (files + [p]) + [d1];
      HasUnnumbered(files + [p], d1, s.id);
    }
    GradRunOnce(f1, s, major);
  }

  /** One run of a one-course program whose number the collection lacks: the program, then the course. */
  lemma GradRunOnce(files: Files, s: Subject, major: string)
    requires !Has(files, s.id) && s.idField == UniId
    ensures GradAddMajor(files, Data([s], major))
         == Completed(files + [ProgramDoc(major, College), CourseDoc(s, [ProgramRef(files, major)])])
  {
    var p := ProgramDoc(major, College);
    var ref := ProgramRef(files, major);
    HasUnnumbered(files, p, s.id);
    GradCoursesAppendAll(files + [p], [s], ref);
    assert Fresh([s], ref) == [CourseDoc(s, [ref])];
    assert (files + [p]) + [CourseDoc(s, [ref])] == files + [p, CourseDoc(s, [ref])];
  }

  /**
   When course `k` is the first whose number the collection holds under
   `uniID` (those before it being stored under `uniId`), the loop adds the
   courses before it as new documents and throws at it.
   */
  lemma {:induction false} GradCoursesThrowAt(files: Files, subjects: seq<Subject>, ref: Ref, k: nat)
    requires k < |subjects|
    requires forall i :: 0 <= i < k ==> subjects[i].idField == UniId && !Has(files, subjects[i].id)
    requires Has(files, subjects[k].id)
    ensures GradCourses(files, subjects, ref) == Threw(files + Fresh(subjects[..k], ref), k)
    decreases k
  {
    if k == 0 {
      assert files + Fresh(subjects[..0], ref) == files;
    } else {
      var f := files + [CourseDoc(subjects[0], [ref])];
      var tail := subjects[1..];
      ThrowStep(files, subjects, ref, k);
      GradCoursesThrowAt(f, tail, ref, k - 1);
      FreshCons(files, subjects[..k], ref);
      assert subjects[..k][0] == subjects[0];
      assert subjects[..k][1..] == tail[..k - 1];
    }
  }

  /** After the first course is added, the rest still meet the conditions, one position earlier. */
  lemma ThrowStep(files: Files, subjects: seq<Subject>, ref: Ref, k: nat)
    requires 0 < k < |subjects|
    requires forall i :: 0 <= i < k ==> subjects[i].idField == UniId && !Has(files, subjects[i].id)
    requires Has(files, subjects[k].id)
    ensures var f, tail := files + [CourseDoc(subjects[0], [ref])], subjects[1..];
      && (forall i :: 0 <= i < k - 1 ==> tail[i].idField == UniId && !Has(f, tail[i].id))
      && Has(f, tail[k - 1].id)
  {
    var d := CourseDoc(subjects[0], [ref]);
    var tail := subjects[1..];
    forall i | 0 <= i < k - 1
      ensures tail[i].idField == UniId && !Has(files + [d], tail[i].id)
    {
      assert tail[i] == subjects[i + 1];
      HasUnnumbered(files, d, subjects[i + 1].id);
    }
    assert tail[k - 1] == subjects[k];
    HasUnnumbered(files, d, subjects[k].id);
  }

  /**
   A course number another script already stored under `uniID` ends the run
   with an exception at that course: the program document stays, every course
   before it is added as a new document, none after it is written.
   */
  lemma GradThrowsOnKnownNumber(files: Files, data: Data, k: nat)
    requires k < |data.subjects|
    requires forall i :: 0 <= i < k ==> data.subjects[i].idField == UniId && !Has(files, data.subjects[i].id)
    requires Has(files, data.subjects[k].id)
    ensures GradAddMajor(files, data)
         == Threw(files + [ProgramDoc(data.major, College)] + Fresh(data.subjects[..k], ProgramRef(files, data.major)), k)
  {
    var p := ProgramDoc(data.major, College);
    forall i | 0 <= i <= k
      ensures Has(files + [p], data.subjects[i].id) == Has(files, data.subjects[i].id)
    {
      HasUnnumbered(files, p, data.subjects[i].id);
    }
    GradCoursesThrowAt(files + [p], data.subjects, ProgramRef(files, data.major), k);
  }

  /** The courses written under `uniID`, as the other scripts write them. */
  function UnderUniID(subjects: seq<Subject>): (ss: seq<Subject>)
    ensures |ss| == |subjects|
    ensures forall i :: 0 <= i < |ss| ==> ss[i] == subjects[i].(idField := UniID) && ss[i].idField == UniID
  {
    seq(|subjects|, i requires 0 <= i < |subjects| => subjects[i].(idField := UniID))
  }

  /**
   `addMajor` as evidently intended: the number stored under the field the
   query reads, and the existing document's `parents` extended by
   `arrayUnion`, as in polytechnic.js and khadory.js.
   */
  function GradAddMajorFixed(files: Files, data: Data): (r: Files)
    ensures Evolves(files, r)
    ensures |files| < |r| <= |files| + 1 + |data.subjects|
    ensures r[|files|] == ProgramDoc(data.major, College)
  {
    AddMajor(files, data.major, College, UnderUniID(data.subjects))
  }

  /** With the fix every course of a run ends up held by a document naming this run's program. */
  lemma GradFixedHolds(files: Files, data: Data)
    ensures forall i :: 0 <= i < |data.subjects| ==>
      Holds(GradAddMajorFixed(files, data), data.subjects[i].id, ProgramRef(files, data.major))
  {
    UpsertAllHolds(files + [ProgramDoc(data.major, College)], UnderUniID(data.subjects), ProgramRef(files, data.major));
  }

  /** With the fix a collection with unique course numbers keeps them unique. */
  lemma GradFixedUnique(files: Files, data: Data)
    requires UniqueUniIDs(files)
    ensures UniqueUniIDs(GradAddMajorFixed(files, data))
  {
    var start := files + [ProgramDoc(data.major, College)];
    assert UniqueUniIDs(start);
    UpsertAllUnique(start, UnderUniID(data.subjects), ProgramRef(files, data.major));
  }

  /** After a fixed run, every course number of the run is found, also once the next program is added. */
  lemma GradFixedFindsAll(files: Files, data: Data)
    ensures var r1 := GradAddMajorFixed(files, data);
      forall i :: 0 <= i < |data.subjects| ==> Has(r1 + [ProgramDoc(data.major, College)], data.subjects[i].id)
  {
    var r1 := GradAddMajorFixed(files, data);
    var start2 := r1 + [ProgramDoc(data.major, College)];
    var ref1 := ProgramRef(files, data.major);
    GradFixedHolds(files, data);
    assert Evolves(r1, start2);
    forall i | 0 <= i < |data.subjects|
      ensures Has(start2, data.subjects[i].id)
    {
      HoldsHas(r1, data.subjects[i].id, ref1);
      EvolvesKeeps(r1, start2, data.subjects[i].id, ref1);
    }
  }

  /**
   With the fix, a second run of the same program adds only its program
   document: every course number is found, and its document keeps the first
   program reference.
   */
  lemma GradFixedRerun(files: Files, data: Data)
    ensures var r1 := GradAddMajorFixed(files, data);
      var r2 := GradAddMajorFixed(r1, data);
      && |r2| == |r1| + 1
      && forall i :: 0 <= i < |data.subjects| ==> Holds(r2, data.subjects[i].id, ProgramRef(files, data.major))
  {
    var ss := UnderUniID(data.subjects);
    var r1 := GradAddMajorFixed(files, data);
    var start2 := r1 + [ProgramDoc(data.major, College)];
    var r2 := GradAddMajorFixed(r1, data);
    assert r2 == UpsertAll(start2, ss, ProgramRef(r1, data.major));
    GradFixedFindsAll(files, data);
    forall i | 0 <= i < |ss|
      ensures Has(start2, ss[i].id)
    {
      assert ss[i].id == data.subjects[i].id;
    }
    UpsertAllNoGrowth(start2, ss, ProgramRef(r1, data.major));
    GradFixedHolds(files, data);
    forall i | 0 <= i < |data.subjects|
      ensures Holds(r2, data.subjects[i].id, ProgramRef(files, data.major))
    {
      EvolvesKeeps(r1, r2, data.subjects[i].id, ProgramRef(files, data.major));
    }
  }

  /** The addresses of `main` (nnu_grad.js, line 162): each piece trimmed, then `study-plan/` appended. */
  function GradLinks(input: string): (links: seq<string>)
    ensures |links| == |Links(input)| >= 1
    ensures forall i :: 0 <= i < |links| ==> links[i] == Links(input)[i] + StudyPlan
  {
    LinksShape(input);
    var ls := Links(input);
    seq(|ls|, i requires 0 <= i < |ls| => ls[i] + StudyPlan)
  }
}
