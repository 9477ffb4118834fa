/**
 The `files` collection as `addMajor` uses it: the program document added
 first, then, for each course, a query on `uniID` that either finds a
 document, whose `parents` get the program reference by `arrayUnion`, or
 finds none, and a new course document is set with that single parent.

 The collection is a sequence of documents. A document the scripts add is
 named by its position; the college documents whose ids the scripts
 hard-code are named by those ids.
 */
module Store {
  import opened Wrappers

  datatype DocId = Stored(pos: nat) | External(key: string)

  /** A `{name, id}` reference to a program or a college. */
  datatype Ref = Ref(name: string, id: DocId)

  /** The field a script writes the course number under. */
  datatype IdField = UniID | UniId

  /** A course object of `data.json`, as the scripts set it into the collection. */
  datatype Subject = Subject(idField: IdField, id: string, name: string, altName: Option<string>)

  /** A document of `files`; an absent field is `None`. */
  datatype Doc = Doc(
    name: string,
    extn: string,
    showInDDM: bool,
    uniID: Option<string>,
    uniId: Option<string>,
    priority: int,
    altName: Option<string>,
    parent: Option<Ref>,
    parents: seq<Ref>)

  type Files = seq<Doc>

  /** The program document: `extn` `mjor`, shown in the drop-down, no course number. */
  function ProgramDoc(name: string, college: Ref): (d: Doc)
    ensures d.uniID.None? && d.uniId.None? && d.parent == Some(college) && d.parents == []
    ensures d.name == name && d.showInDDM
  {
    Doc(name, "mjor", true, None, None, 0, None, Some(college), [])
  }

  /** The course document `doc().set(cors)` writes once `cors.parents` is set. */
  function CourseDoc(s: Subject, parents: seq<Ref>): (d: Doc)
    ensures d.name == s.name && d.parents == parents && d.altName == s.altName
    ensures s.idField == UniID ==> d.uniID == Some(s.id) && d.uniId.None?
    ensures s.idField == UniId ==> d.uniId == Some(s.id) && d.uniID.None?
    ensures !d.showInDDM && d.extn == "cors" && d.parent.None?
  {
    Doc(s.name, "cors", false,
        if s.idField == UniID then Some(s.id) else None,
        if s.idField == UniId then Some(s.id) else None,
        0, s.altName, None, parents)
  }

  /** Some document carries `id` in its `uniID` field. */
  predicate Has(files: Files, id: string) {
    exists j :: 0 <= j < |files| && files[j].uniID == Some(id)
  }

  /** Some document carries `id` in its `uniID` field and `ref` among its `parents`. */
  predicate Holds(files: Files, id: string, ref: Ref) {
    exists j :: 0 <= j < |files| && files[j].uniID == Some(id) && ref in files[j].parents
  }

  lemma HoldsHas(files: Files, id: string, ref: Ref)
    requires Holds(files, id, ref)
    ensures Has(files, id)
  {
  }

  /**
   `where("uniID", "==", id).get()` and its `docs[0]`: the first document whose
   `uniID` field equals `id`; a document without the field never matches.
   */
  function FindByUniID(files: Files, id: string): (r: Option<nat>)
    ensures r.Some? ==> r.value < |files| && files[r.value].uniID == Some(id)
    ensures r.Some? ==> forall j :: 0 <= j < r.value ==> files[j].uniID != Some(id)
    ensures r.None? <==> !Has(files, id)
  {
    if files == [] then None
    else if files[0].uniID == Some(id) then Some(0)
    else match FindByUniID(files[1..], id)
      case None =>
        assert forall j :: 1 <= j < |files| ==> files[j] == files[1..][j - 1];
        None
      case Some(j) => Some(j + 1)
  }

  /** The query reads nothing but the `uniID` fields. */
  lemma FindByUniIDOnlyReadsIds(a: Files, b: Files, id: string)
    requires |a| == |b|
    requires forall j :: 0 <= j < |a| ==> a[j].uniID == b[j].uniID
    ensures FindByUniID(a, id) == FindByUniID(b, id)
  {
    var ra, rb := FindByUniID(a, id), FindByUniID(b, id);
    if ra.Some? {
      assert b[ra.value].uniID == Some(id);
    }
    if rb.Some? {
      assert a[rb.value].uniID == Some(id);
    }
    if ra.Some? && rb.Some? {
      assert !(ra.value < rb.value) && !(rb.value < ra.value);
    }
  }

  /** `FieldValue.arrayUnion(ref)` on an array: appended unless already an element. */
  function ArrayUnion(xs: seq<Ref>, ref: Ref): (r: seq<Ref>)
    ensures forall x :: x in r <==> x in xs || x == ref
    ensures ref in xs ==> r == xs
    ensures ref !in xs ==> |r| == |xs| + 1 && r[..|xs|] == xs
  {
    if ref in xs then xs else xs + [ref]
  }

  /** A second union with the same reference changes nothing. */
  lemma ArrayUnionIdempotent(xs: seq<Ref>, ref: Ref)
    ensures ArrayUnion(ArrayUnion(xs, ref), ref) == ArrayUnion(xs, ref)
  {
  }

  /** No two documents share a `uniID`. */
  predicate UniqueUniIDs(files: Files) {
    forall i, j :: 0 <= i < j < |files| && files[i].uniID.Some? ==> files[i].uniID != files[j].uniID
  }

  /**
   `later` is `files` after updates that only add documents at the end and add
   references to `parents`: no other field of an existing document changes,
   and a document without `uniID` does not change at all.
   */
  predicate Evolves(files: Files, later: Files) {
    && |files| <= |later|
    && (forall j :: 0 <= j < |files| ==> later[j] == files[j].(parents := later[j].parents))
    && (forall j, x :: 0 <= j < |files| && x in files[j].parents ==> x in later[j].parents)
    && (forall j :: 0 <= j < |files| && files[j].uniID.None? ==> later[j] == files[j])
  }

  lemma EvolvesTrans(a: Files, b: Files, c: Files)
    requires Evolves(a, b) && Evolves(b, c)
    ensures Evolves(a, c)
  {
    forall j | 0 <= j < |a|
      ensures c[j] == a[j].(parents := c[j].parents)
    {
      assert b[j] == a[j].(parents := b[j].parents);
      assert c[j] == b[j].(parents := c[j].parents);
    }
  }

  /** What an evolution keeps: every course number and every reference already held. */
  lemma EvolvesKeeps(a: Files, b: Files, id: string, ref: Ref)
    requires Evolves(a, b)
    ensures Has(a, id) ==> Has(b, id)
    ensures Holds(a, id, ref) ==> Holds(b, id, ref)
  {
    if Has(a, id) {
      var j :| 0 <= j < |a| && a[j].uniID == Some(id);
      assert b[j].uniID == a[j].uniID;
    }
    if Holds(a, id, ref) {
      var j :| 0 <= j < |a| && a[j].uniID == Some(id) && ref in a[j].parents;
      assert b[j].uniID == a[j].uniID;
    }
  }

  /**
   One course of the loop (polytechnic.js, lines 289-300): when no document has
   its number, one course document is added with the single parent; otherwise
   the collection keeps its size and only the first match gains the reference.
   For a course written under `uniID` the collection afterwards holds the
   reference under that number.
   */
  function Upsert(files: Files, s: Subject, ref: Ref): (r: Files)
    ensures Evolves(files, r)
    ensures Has(files, s.id) ==> |r| == |files|
    ensures !Has(files, s.id) ==> r == files + [CourseDoc(s, [ref])]
    ensures Has(files, s.id) ==> var p := FindByUniID(files, s.id).value;
      r[p].parents == ArrayUnion(files[p].parents, ref)
    ensures forall j :: 0 <= j < |files| && FindByUniID(files, s.id) != Some(j) ==> r[j] == files[j]
    ensures s.idField == UniID ==> Holds(r, s.id, ref)
  {
    match FindByUniID(files, s.id)
    case None =>
      var r := files + [CourseDoc(s, [ref])];
      assert s.idField == UniID ==> r[|files|].uniID == Some(s.id) && ref in r[|files|].parents;
      r
    case Some(p) =>
      var r := files[p := files[p].(parents := ArrayUnion(files[p].parents, ref))];
      assert r[p].uniID == Some(s.id) && ref in r[p].parents;
      r
  }

  /** Running the same course again with the same reference changes nothing. */
  lemma UpsertIdempotent(files: Files, s: Subject, ref: Ref)
    requires s.idField == UniID
    ensures Upsert(Upsert(files, s, ref), s, ref) == Upsert(files, s, ref)
  {
    match FindByUniID(files, s.id)
    case None => UpsertAgainNew(files, s, ref);
    case Some(p) => UpsertAgainFound(files, s, ref, p);
  }

  lemma UpsertAgainNew(files: Files, s: Subject, ref: Ref)
    requires s.idField == UniID && FindByUniID(files, s.id).None?
    ensures Upsert(Upsert(files, s, ref), s, ref) == Upsert(files, s, ref)
  {
    var r := Upsert(files, s, ref);
    var p := |files|;
    assert r == files + [CourseDoc(s, [ref])];
    assert r[p].uniID == Some(s.id);
    assert FindByUniID(r, s.id) == Some(p);
    assert r[p].parents == [ref];
    assert r[p := r[p].(parents := ArrayUnion(r[p].parents, ref))] == r;
  }

  lemma UpsertAgainFound(files: Files, s: Subject, ref: Ref, p: nat)
    requires FindByUniID(files, s.id) == Some(p)
    ensures Upsert(Upsert(files, s, ref), s, ref) == Upsert(files, s, ref)
  {
    var r := Upsert(files, s, ref);
    UpsertFound(files, s, ref, p);
    assert forall j :: 0 <= j < |files| ==> files[j].uniID == r[j].uniID;
    FindByUniIDOnlyReadsIds(files, r, s.id);
    UpsertFound(r, s, ref, p);
    assert ArrayUnion(r[p].parents, ref) == r[p].parents;
    assert r[p := r[p]] == r;
  }

  /** Where the query finds the course, the one document there gains the reference. */
  lemma UpsertFound(files: Files, s: Subject, ref: Ref, p: nat)
    requires FindByUniID(files, s.id) == Some(p)
    ensures Upsert(files, s, ref) == files[p := files[p].(parents := ArrayUnion(files[p].parents, ref))]
  {
  }

  /** A course never gives a second document the number of an existing one. */
  lemma UpsertUnique(files: Files, s: Subject, ref: Ref)
    requires UniqueUniIDs(files)
    ensures UniqueUniIDs(Upsert(files, s, ref))
  {
    var r := Upsert(files, s, ref);
    if !Has(files, s.id) {
      forall i, j | 0 <= i < j < |r| && r[i].uniID.Some?
        ensures r[i].uniID != r[j].uniID
      {
        if j == |files| && s.idField == UniID {
          assert files[i].uniID != Some(s.id);
        }
      }
    }
  }

  /** The course loop of `addMajor` (khadory.js, lines 206-219), courses in file order. */
  function UpsertAll(files: Files, subjects: seq<Subject>, ref: Ref): (r: Files)
    ensures Evolves(files, r)
    ensures |r| <= |files| + |subjects|
    decreases |subjects|
  {
    if subjects == [] then files
    else
      var f := Upsert(files, subjects[0], ref);
      var r := UpsertAll(f, subjects[1..], ref);
      EvolvesTrans(files, f, r);
      r
  }

  /** After the loop every course written under `uniID` has a document holding the reference. */
  lemma {:induction false} UpsertAllHolds(files: Files, subjects: seq<Subject>, ref: Ref)
    ensures forall i :: 0 <= i < |subjects| && subjects[i].idField == UniID ==>
      Holds(UpsertAll(files, subjects, ref), subjects[i].id, ref)
    decreases |subjects|
  {
    if subjects != [] {
      var f := Upsert(files, subjects[0], ref);
      var r := UpsertAll(f, subjects[1..], ref);
      assert UpsertAll(files, subjects, ref) == r;
      UpsertAllHolds(f, subjects[1..], ref);
      forall i | 0 <= i < |subjects| && subjects[i].idField == UniID
        ensures Holds(r, subjects[i].id, ref)
      {
        if i > 0 {
          assert subjects[i] == subjects[1..][i - 1];
        } else {
          assert Holds(f, subjects[0].id, ref);
          EvolvesKeeps(f, r, subjects[0].id, ref);
        }
      }
    }
  }

  /** The loop keeps course numbers unique. */
  lemma {:induction false} UpsertAllUnique(files: Files, subjects: seq<Subject>, ref: Ref)
    requires UniqueUniIDs(files)
    ensures UniqueUniIDs(UpsertAll(files, subjects, ref))
    decreases |subjects|
  {
    if subjects != [] {
      UpsertUnique(files, subjects[0], ref);
      UpsertAllUnique(Upsert(files, subjects[0], ref), subjects[1..], ref);
    }
  }

  /** Courses whose numbers are all present already add no document. */
  lemma {:induction false} UpsertAllNoGrowth(files: Files, subjects: seq<Subject>, ref: Ref)
    requires forall i :: 0 <= i < |subjects| ==> Has(files, subjects[i].id)
    ensures |UpsertAll(files, subjects, ref)| == |files|
    decreases |subjects|
  {
    if subjects != [] {
      var f := Upsert(files, subjects[0], ref);
      forall i | 0 <= i < |subjects[1..]|
        ensures Has(f, subjects[1..][i].id)
      {
        EvolvesKeeps(files, f, subjects[i + 1].id, ref);
      }
      UpsertAllNoGrowth(f, subjects[1..], ref);
    }
  }

  /**
   `addMajor` of polytechnic.js and khadory.js: the program document is added
   first whatever the courses, and keeps its content through the loop.
   */
  function AddMajor(files: Files, major: string, college: Ref, subjects: seq<Subject>): (r: Files)
    ensures Evolves(files, r)
    ensures |files| < |r| <= |files| + 1 + |subjects|
    ensures r[|files|] == ProgramDoc(major, college)
  {
    var start := files + [ProgramDoc(major, college)];
    var r := UpsertAll(start, subjects, ProgramRef(files, major));
    assert Evolves(files, start);
    EvolvesTrans(files, start, r);
    r
  }

  /** The `{name, id}` of the program document `AddMajor` adds to `files`. */
  function ProgramRef(files: Files, major: string): (ref: Ref)
    ensures ref.id == Stored(|files|)
  {
    Ref(major, Stored(|files|))
  }

  /**
   Two courses of one run sharing a number that the collection does not yet
   hold leave exactly one document for it, with the one parent reference; the
   second course's own name and `altName` are never written.
   */
  lemma SharedNumberOneDocument(files: Files, s1: Subject, s2: Subject, ref: Ref)
    requires !Has(files, s1.id) && s1.id == s2.id && s1.idField == UniID
    ensures UpsertAll(files, [s1, s2], ref) == files + [CourseDoc(s1, [ref])]
  {
    var f := Upsert(files, s1, ref);
    assert [s1, s2][1..] == [s2];
    assert [s2][1..] == [];
    assert UpsertAll(files, [s1, s2], ref) == UpsertAll(f, [s2], ref);
    assert UpsertAll(f, [s2], ref) == Upsert(f, s2, ref);
    UpsertIdempotent(files, s1, ref);
    assert Upsert(f, s2, ref) == Upsert(f, s1, ref);
  }

  lemma AddMajorUnfold(files: Files, major: string, college: Ref, subjects: seq<Subject>)
    ensures AddMajor(files, major, college, subjects)
         == UpsertAll(files + [ProgramDoc(major, college)], subjects, ProgramRef(files, major))
  {
  }

  /** A document without a `uniID` adds no course number. */
  lemma HasUnnumbered(files: Files, d: Doc, id: string)
    requires d.uniID.None?
    ensures Has(files + [d], id) <==> Has(files, id)
  {
    var f := files + [d];
    if Has(f, id) {
      var j :| 0 <= j < |f| && f[j].uniID == Some(id);
      assert j < |files| && files[j] == f[j];
    }
    if Has(files, id) {
      var j :| 0 <= j < |files| && files[j].uniID == Some(id);
      assert f[j] == files[j];
    }
  }

  /** The same through `addMajor`: the program document, then one course document. */
  lemma AddMajorSharedNumber(files: Files, major: string, college: Ref, s1: Subject, s2: Subject)
    requires !Has(files, s1.id) && s1.id == s2.id && s1.idField == UniID
    ensures AddMajor(files, major, college, [s1, s2])
         == files + [ProgramDoc(major, college), CourseDoc(s1, [ProgramRef(files, major)])]
  {
    var start := files + [ProgramDoc(major, college)];
    var ref := ProgramRef(files, major);
    AddMajorUnfold(files, major, college, [s1, s2]);
    HasUnnumbered(files, ProgramDoc(major, college), s1.id);
    SharedNumberOneDocument(start, s1, s2, ref);
    assert start + [CourseDoc(s1, [ref])] == files + [ProgramDoc(major, college), CourseDoc(s1, [ref])];
  }

  /**
   Two programs listing the same new course number: one document, parents in
   the order the programs were added.
   */
  lemma TwoProgramsOneDocument(files: Files, s1: Subject, s2: Subject, r1: Ref, r2: Ref)
    requires !Has(files, s1.id) && s1.id == s2.id && s1.idField == UniID && r1 != r2
    ensures Upsert(Upsert(files, s1, r1), s2, r2) == files + [CourseDoc(s1, [r1, r2])]
  {
    var f := Upsert(files, s1, r1);
    var p := |files|;
    assert f[p].uniID == Some(s1.id);
    assert FindByUniID(f, s2.id) == Some(p);
    assert f[p].parents == [r1];
    assert ArrayUnion([r1], r2) == [r1, r2];
  }
}
