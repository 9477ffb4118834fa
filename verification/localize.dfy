/**
 The `localization.json` document: an `arabic` and an `english` object keyed
 by canonical name, written together, one key at a time, so that a later
 write under the same key replaces both values of an earlier one.
 */
module Localize {
  import opened Naming

  /** The `{arabic, english}` pair of objects. */
  datatype Localization = Localization(arabic: map<string, string>, english: map<string, string>)

  /** One assignment `arabic[key] = ar; english[key] = en`. */
  datatype Pairing = Pairing(key: string, arabic: string, english: string)

  /** A localization whose two objects have the same keys. */
  predicate Aligned(l: Localization) {
    l.arabic.Keys == l.english.Keys
  }

  /** The localization holding one entry, as the program title starts it. */
  function Single(key: string, arabic: string, english: string): (l: Localization)
    ensures Aligned(l)
    ensures l.arabic.Keys == {key} && l.arabic[key] == arabic && l.english[key] == english
  {
    Localization(map[key := arabic], map[key := english])
  }

  const Empty := Localization(map[], map[])

  /** `i` is the last pairing that writes under `k`. */
  predicate IsLastKey(ps: seq<Pairing>, k: string, i: int) {
    0 <= i < |ps| && ps[i].key == k && forall j :: i < j < |ps| ==> ps[j].key != k
  }

  /** No pairing writes under `k`. */
  predicate Untouched(ps: seq<Pairing>, k: string) {
    forall i :: 0 <= i < |ps| ==> ps[i].key != k
  }

  function Keys(ps: seq<Pairing>): set<string> {
    set i | 0 <= i < |ps| :: ps[i].key
  }

  /**
   The writes applied in order to `init`: both objects gain exactly the keys
   written.
   */
  function Build(init: Localization, ps: seq<Pairing>): (l: Localization)
    ensures l.arabic.Keys == init.arabic.Keys + Keys(ps)
    ensures l.english.Keys == init.english.Keys + Keys(ps)
  {
    if ps == [] then init
    else
      var p := ps[|ps| - 1];
      var l := Build(init, ps[..|ps| - 1]);
      KeysSnoc(ps);
      Localization(l.arabic[p.key := p.arabic], l.english[p.key := p.english])
  }

  lemma KeysSnoc(ps: seq<Pairing>)
    requires ps != []
    ensures Keys(ps) == Keys(ps[..|ps| - 1]) + {ps[|ps| - 1].key}
  {
    var init := ps[..|ps| - 1];
    assert forall i :: 0 <= i < |init| ==> init[i] == ps[i];
    assert forall k :: k in Keys(init) ==> k in Keys(ps);
    assert ps[|ps| - 1].key in Keys(ps);
  }

  /**
   The last write under a key decides both of its values; a key never written
   keeps its initial values.
   */
  lemma {:induction false} BuildValues(init: Localization, ps: seq<Pairing>)
    ensures forall k, i :: IsLastKey(ps, k, i) ==>
      Build(init, ps).arabic[k] == ps[i].arabic && Build(init, ps).english[k] == ps[i].english
    ensures forall k :: k in init.arabic && Untouched(ps, k) ==> Build(init, ps).arabic[k] == init.arabic[k]
    ensures forall k :: k in init.english && Untouched(ps, k) ==> Build(init, ps).english[k] == init.english[k]
  {
    if ps != [] {
      var init' := ps[..|ps| - 1];
      var p := ps[|ps| - 1];
      BuildValues(init, init');
      var l := Build(init, ps);
      forall k, i | IsLastKey(ps, k, i)
        ensures l.arabic[k] == ps[i].arabic && l.english[k] == ps[i].english
      {
        if k != p.key {
          assert IsLastKey(init', k, i);
        }
      }
      forall k | Untouched(ps, k)
        ensures Untouched(init', k)
      {
        assert forall i :: 0 <= i < |init'| ==> init'[i] == ps[i];
      }
    }
  }

  /** Some pairing writes under `k`, so one of them is the last. */
  lemma LastKeyExists(ps: seq<Pairing>, k: string) returns (i: nat)
    requires k in Keys(ps)
    ensures IsLastKey(ps, k, i)
    decreases |ps|
  {
    if ps[|ps| - 1].key == k {
      i := |ps| - 1;
    } else {
      var init := ps[..|ps| - 1];
      var j :| 0 <= j < |ps| && ps[j].key == k;
      assert init[j] == ps[j];
      i := LastKeyExists(init, k);
      assert forall m :: 0 <= m < |init| ==> init[m] == ps[m];
    }
  }

  /**
   Both objects hold the same keys and, for each key, a pair of values written
   together: by the last pairing under the key, or by `init` if none writes it.
   Canonical names that collide therefore never mix an Arabic value of one
   course with the English value of another.
   */
  lemma BuildCoherent(init: Localization, ps: seq<Pairing>, k: string)
    requires Aligned(init)
    requires k in Build(init, ps).arabic
    ensures Aligned(Build(init, ps))
    ensures var l := Build(init, ps);
      || (exists i :: IsLastKey(ps, k, i) && l.arabic[k] == ps[i].arabic && l.english[k] == ps[i].english)
      || (Untouched(ps, k) && l.arabic[k] == init.arabic[k] && l.english[k] == init.english[k])
  {
    BuildValues(init, ps);
    if k in Keys(ps) {
      var i := LastKeyExists(ps, k);
    } else {
      assert Untouched(ps, k) by {
        forall i | 0 <= i < |ps|
          ensures ps[i].key != k
        {
          assert ps[i].key in Keys(ps);
        }
      }
    }
  }

  /** The two names of one course number. */
  datatype Both = Both(arabic: string, english: string)

  /** An iteration order of `for (const id in localizationMap)`: every key once. */
  predicate EnumeratesKeys<V>(order: seq<string>, m: map<string, V>) {
    && (forall i :: 0 <= i < |order| ==> order[i] in m)
    && (forall id :: id in m ==> exists i :: 0 <= i < |order| && order[i] == id)
    && (forall i, j :: 0 <= i < j < |order| ==> order[i] != order[j])
  }

  /** The writes of the combining loop, one per course, keyed by the English name. */
  function CoursePairings(prefix: string, loc: map<string, Both>, order: seq<string>): (ps: seq<Pairing>)
    requires forall i :: 0 <= i < |order| ==> order[i] in loc
    ensures |ps| == |order|
    ensures forall i :: 0 <= i < |order| ==>
      ps[i] == Pairing(Canonical(prefix, loc[order[i]].english), loc[order[i]].arabic, loc[order[i]].english)
  {
    seq(|order|, i requires 0 <= i < |order| =>
      Pairing(Canonical(prefix, loc[order[i]].english), loc[order[i]].arabic, loc[order[i]].english))
  }

  /** The keys the combined objects hold for the courses, whatever the iteration order. */
  function CourseKeys(prefix: string, loc: map<string, Both>): set<string> {
    set id | id in loc :: Canonical(prefix, loc[id].english)
  }

  /** The pairings cover exactly the canonical English names of the courses. */
  lemma PairingKeys(prefix: string, loc: map<string, Both>, order: seq<string>)
    requires EnumeratesKeys(order, loc)
    ensures Keys(CoursePairings(prefix, loc, order)) == CourseKeys(prefix, loc)
  {
    var ps := CoursePairings(prefix, loc, order);
    forall k | k in CourseKeys(prefix, loc)
      ensures k in Keys(ps)
    {
      var id :| id in loc && Canonical(prefix, loc[id].english) == k;
      var i :| 0 <= i < |order| && order[i] == id;
      assert ps[i].key == k;
    }
  }

  /**
   The combining loop of `mergeFiles`: every course of `loc`, in the order
   given, written under the prefixed canonical form of its English name.
   */
  function Combine(init: Localization, prefix: string, loc: map<string, Both>, order: seq<string>): Localization
    requires EnumeratesKeys(order, loc)
  {
    Build(init, CoursePairings(prefix, loc, order))
  }

  /** Key `k` of `l` holds both names of course `id`, and `k` is that course's key. */
  predicate FromCourse(l: Localization, prefix: string, loc: map<string, Both>, id: string, k: string) {
    && id in loc && k in l.arabic && k in l.english
    && Canonical(prefix, loc[id].english) == k
    && l.arabic[k] == loc[id].arabic && l.english[k] == loc[id].english
  }

  /** The keys do not depend on the iteration order. */
  lemma CombineKeys(init: Localization, prefix: string, loc: map<string, Both>, order: seq<string>)
    requires Aligned(init)
    requires EnumeratesKeys(order, loc)
    ensures Aligned(Combine(init, prefix, loc, order))
    ensures Combine(init, prefix, loc, order).arabic.Keys == init.arabic.Keys + CourseKeys(prefix, loc)
  {
    PairingKeys(prefix, loc, order);
  }

  /** Each key holds the two names of one course, or the two initial values. */
  lemma CombineCoherent(init: Localization, prefix: string, loc: map<string, Both>, order: seq<string>, k: string)
    requires Aligned(init)
    requires EnumeratesKeys(order, loc)
    requires k in Combine(init, prefix, loc, order).arabic
    ensures var l := Combine(init, prefix, loc, order);
      || (exists id :: FromCourse(l, prefix, loc, id, k))
      || (k in init.arabic && l.arabic[k] == init.arabic[k] && l.english[k] == init.english[k])
  {
    var ps := CoursePairings(prefix, loc, order);
    BuildCoherent(init, ps, k);
    var l := Build(init, ps);
    if exists i :: IsLastKey(ps, k, i) && l.arabic[k] == ps[i].arabic && l.english[k] == ps[i].english {
      var i :| IsLastKey(ps, k, i) && l.arabic[k] == ps[i].arabic && l.english[k] == ps[i].english;
      assert FromCourse(l, prefix, loc, order[i], k);
    }
  }
}
