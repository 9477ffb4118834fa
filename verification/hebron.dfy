/**
 hebron_uni.js after extraction: pairing the Arabic and English entries by
 course number (`mergeJSONFiles`), the course record built for every pair
 (`mergeObjects`), the validity filter and the program name written next to
 the courses (`filterObjectsWithValidFields`).
 */
module Hebron {
  import opened Wrappers
  import opened Text
  import opened Naming
  import opened Fragments

  /** The institution prefix of every Hebron name. */
  const Prefix := "hu_"
  /** The word of the page title the program name swaps for `Bachelor`. */
  const Department := "department"
  const Bachelor := "bachelor"

  /** One entry of `translations`. */
  datatype Translation = Translation(locale: string, region: string, name: string, fallback: bool, altName: Option<string>)

  /** A merged course object of `data.json`. */
  datatype Record = Record(
    extn: string,
    showInDDM: bool,
    priority: int,
    altName: Option<string>,
    uniID: Option<string>,
    name: string,
    translations: seq<Translation>)

  /** The catalog document `data.json` holds after the filter. */
  datatype Catalog = Catalog(major: string, courses: seq<Record>)

  /** An Arabic translation that is the fallback, then an English one that is not. */
  predicate WellLocalized(r: Record) {
    && |r.translations| == 2
    && r.translations[0].locale == "ar" && r.translations[0].region == "SA" && r.translations[0].fallback
    && r.translations[1].locale == "en" && r.translations[1].region == "US" && !r.translations[1].fallback
  }

  /** `englishData.find(e => e.id === id)`: the position of the first entry with that id; `null` matches `null`. */
  function FindById(en: seq<Entry>, id: Option<string>): (r: Option<nat>)
    ensures r.Some? ==> r.value < |en| && en[r.value].id == id
    ensures r.Some? ==> forall j :: 0 <= j < r.value ==> en[j].id != id
    ensures r.None? ==> forall j :: 0 <= j < |en| ==> en[j].id != id
  {
    if en == [] then None
    else if en[0].id == id then Some(0)
    else match FindById(en[1..], id)
      case None => None
      case Some(j) => Some(j + 1)
  }

  /** `mergeObjects` (hebron_uni.js, lines 161-184). */
  function MergeObjects(ar: Entry, en: Entry): (r: Record)
    ensures WellLocalized(r)
    ensures r.uniID == ar.id
    ensures r.translations[0].name == ar.name && r.translations[1].name == en.name
    ensures r.name == Canonical(Prefix, en.name)
  {
    Record("cors", false, 0, None, ar.id, Canonical(Prefix, en.name),
           [Translation("ar", "SA", ar.name, true, None), Translation("en", "US", en.name, false, None)])
  }

  /** The record one Arabic entry yields, `null` when no English entry shares its id. */
  function MergeOne(ar: Entry, en: seq<Entry>): seq<Record> {
    match FindById(en, ar.id)
    case None => []
    case Some(j) => [MergeObjects(ar, en[j])]
  }

  /**
   `mergeJSONFiles` (hebron_uni.js, lines 186-193): a record for every Arabic
   entry with an English partner, in Arabic order; the others are dropped.
   */
  function MergeJsonFiles(ar: seq<Entry>, en: seq<Entry>): (r: seq<Record>)
    ensures |r| <= |ar|
  {
    if ar == [] then [] else MergeOne(ar[0], en) + MergeJsonFiles(ar[1..], en)
  }

  /**
   The merge works entry by entry in Arabic order: merging a concatenation is
   concatenating the merges, and one Arabic entry yields its record with the
   first English entry of the same id, or nothing.
   */
  lemma {:induction false} MergeJsonFilesAppend(a: seq<Entry>, b: seq<Entry>, en: seq<Entry>)
    ensures MergeJsonFiles(a + b, en) == MergeJsonFiles(a, en) + MergeJsonFiles(b, en)
  {
    if a == [] {
      assert a + b == b;
    } else {
      assert (a + b)[1..] == a[1..] + b;
      MergeJsonFilesAppend(a[1..], b, en);
    }
  }

  /**
   What one Arabic entry contributes: with a partner, exactly one record pairing
   it with the FIRST English entry of the same id; without, nothing.
   */
  lemma MergeJsonFilesSingle(a: Entry, en: seq<Entry>)
    ensures |MergeJsonFiles([a], en)| <= 1
    ensures (exists j :: 0 <= j < |en| && en[j].id == a.id) <==> |MergeJsonFiles([a], en)| == 1
    ensures forall j :: 0 <= j < |en| && en[j].id == a.id && (forall i :: 0 <= i < j ==> en[i].id != a.id)
                 ==> MergeJsonFiles([a], en) == [MergeObjects(a, en[j])]
  {
    assert [a][1..] == [];
    assert MergeJsonFiles([a], en) == MergeOne(a, en);
    MergeOneSpec(a, en);
  }

  lemma MergeOneSpec(a: Entry, en: seq<Entry>)
    ensures |MergeOne(a, en)| <= 1
    ensures (exists j :: 0 <= j < |en| && en[j].id == a.id) <==> |MergeOne(a, en)| == 1
    ensures forall j :: 0 <= j < |en| && en[j].id == a.id && (forall i :: 0 <= i < j ==> en[i].id != a.id)
                 ==> MergeOne(a, en) == [MergeObjects(a, en[j])]
  {
    match FindById(en, a.id)
    case None =>
    case Some(k) =>
      forall j | 0 <= j < |en| && en[j].id == a.id && (forall i :: 0 <= i < j ==> en[i].id != a.id)
        ensures MergeOne(a, en) == [MergeObjects(a, en[j])]
      {
        assert !(k < j) && !(j < k);
      }
  }

  /**
   Every merged record carries an Arabic id that some English entry shares, the
   fallback Arabic translation first and the English one second.
   */
  lemma {:induction false} MergedRecordsShape(ar: seq<Entry>, en: seq<Entry>)
    ensures forall r :: r in MergeJsonFiles(ar, en) ==>
      && WellLocalized(r)
      && (exists i :: 0 <= i < |ar| && ar[i].id == r.uniID)
      && (exists j :: 0 <= j < |en| && en[j].id == r.uniID)
  {
    if ar != [] {
      MergedRecordsShape(ar[1..], en);
      forall r | r in MergeJsonFiles(ar, en)
        ensures && WellLocalized(r)
                && (exists i :: 0 <= i < |ar| && ar[i].id == r.uniID)
                && (exists j :: 0 <= j < |en| && en[j].id == r.uniID)
      {
        if r in MergeOne(ar[0], en) {
          MergeOneShape(ar[0], en, r);
        } else {
          assert r in MergeJsonFiles(ar[1..], en);
          var i :| 0 <= i < |ar[1..]| && ar[1..][i].id == r.uniID;
          assert ar[i + 1].id == r.uniID;
        }
      }
    }
  }

  lemma MergeOneShape(a: Entry, en: seq<Entry>, r: Record)
    requires r in MergeOne(a, en)
    ensures WellLocalized(r) && r.uniID == a.id
    ensures exists j :: 0 <= j < |en| && en[j].id == r.uniID
  {
    var k := FindById(en, a.id).value;
    assert r == MergeObjects(a, en[k]);
  }

  /** `isValidUniID` (hebron_uni.js, lines 98-100): present and not blank. */
  predicate IsValidUniID(id: Option<string>) {
    id.Some? && Trim(id.value) != []
  }

  /** The test `filterObjectsWithValidFields` applies to each record (hebron_uni.js, line 75). */
  predicate IsValidRecord(r: Record) {
    r.name != [] && Trim(r.name) != [] && IsValidUniID(r.uniID)
  }

  /** The filter of `filterObjectsWithValidFields` (hebron_uni.js, lines 74-76). */
  function FilterValid(rs: seq<Record>): (out: seq<Record>)
    ensures |out| <= |rs|
    ensures forall r :: r in out ==> r in rs && IsValidRecord(r)
    ensures forall r :: r in rs && IsValidRecord(r) ==> r in out
  {
    if rs == [] then []
    else (if IsValidRecord(rs[0]) then [rs[0]] else []) + FilterValid(rs[1..])
  }

  /** The filter keeps order: filtering a concatenation is concatenating the filtered parts. */
  lemma {:induction false} FilterValidAppend(a: seq<Record>, b: seq<Record>)
    ensures FilterValid(a + b) == FilterValid(a) + FilterValid(b)
  {
    if a == [] {
      assert a + b == b;
    } else {
      assert (a + b)[1..] == a[1..] + b;
      FilterValidAppend(a[1..], b);
    }
  }

  /** Filtering twice is filtering once. */
  lemma {:induction false} FilterValidIdempotent(rs: seq<Record>)
    ensures FilterValid(FilterValid(rs)) == FilterValid(rs)
  {
    if rs != [] {
      var head := if IsValidRecord(rs[0]) then [rs[0]] else [];
      FilterValidAppend(head, FilterValid(rs[1..]));
      FilterValidIdempotent(rs[1..]);
      if IsValidRecord(rs[0]) {
        assert [rs[0]][1..] == [];
      }
    }
  }

  /**
   A merged record always has a non-blank name, so on merged records the filter
   removes exactly those whose id is missing or blank.
   */
  lemma MergedRecordValidIff(a: Entry, e: Entry)
    ensures IsValidRecord(MergeObjects(a, e)) <==> IsValidUniID(a.id)
  {
    var n := MergeObjects(a, e).name;
    assert n[0] == 'h' by {
      assert n[..3] == "hu_";
    }
    assert !AllSpace(n) by {
      assert !IsSpace(n[0]);
    }
  }

  /**
   The program name (hebron_uni.js, lines 80 and 149): the English page title in
   canonical form, first `department` replaced by `bachelor`, under `hu_`.
   */
  function MajorName(title: string): (name: string)
    ensures |name| >= 3 && name[..3] == Prefix
    ensures forall i: nat :: IsFirstOccurrence(SnakeCase(title), Department, i) ==>
      name == Prefix + (SnakeCase(title)[..i] + Bachelor + SnakeCase(title)[i + |Department|..])
    ensures (forall i: nat :: !OccursAt(SnakeCase(title), Department, i)) ==> name == Canonical(Prefix, title)
  {
    Prefix + ReplaceFirst(SnakeCase(title), Department, Bachelor)
  }

  /** The content of `data.json` after `filterObjectsWithValidFields`. */
  function BuildCatalog(title: string, rs: seq<Record>): (c: Catalog)
    ensures c.major == MajorName(title)
    ensures forall r :: r in c.courses <==> r in rs && IsValidRecord(r)
  {
    Catalog(MajorName(title), FilterValid(rs))
  }

  /**
   The pairing of one Arabic course with English entries, one matching and one
   not: exactly one record comes out, for the shared id.
   */
  lemma PairingExample()
    ensures var a, en := Entry("فنون", Some("10001")), [Entry("Arts", Some("10001")), Entry("Other", Some("99999"))];
      && |MergeJsonFiles([a], en)| == 1
      && MergeJsonFiles([a], en)[0].uniID == Some("10001")
      && MergeJsonFiles([a], en)[0].translations[1].name == "Arts"
  {
    var a, en := Entry("فنون", Some("10001")), [Entry("Arts", Some("10001")), Entry("Other", Some("99999"))];
    MergeJsonFilesSingle(a, en);
    assert en[0].id == a.id;
  }
}
