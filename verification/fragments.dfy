/**
 hebron_uni.js turns the text of every `<strong>` element of a study-plan page
 into an entry `{name, id}`, splitting off a standalone five-digit course
 number, then repairs entries whose label and number landed in separate
 elements (`processArray`).
 */
module Fragments {
  import opened Wrappers
  import opened Text

  /** One extracted entry; `id` is `null` when the text held no course number. */
  datatype Entry = Entry(name: string, id: Option<string>)

  /** `/\b\d{5}\b/` matches `text` at index `i`: five ASCII digits with no word character on either side. */
  predicate FiveDigitAt(text: string, i: int) {
    && 0 <= i && i + 5 <= |text|
    && (forall k :: i <= k < i + 5 ==> IsDigit(text[k]))
    && (i == 0 || !IsWordChar(text[i - 1]))
    && (i + 5 == |text| || !IsWordChar(text[i + 5]))
  }

  /** `i` is where the regular expression search stops: the leftmost match. */
  predicate IsFirstMatch(text: string, i: int) {
    FiveDigitAt(text, i) && forall j :: 0 <= j < i ==> !FiveDigitAt(text, j)
  }

  /** Leftmost match at or after `from`, as a left-to-right regular expression search finds it. */
  function FindFiveDigitFrom(text: string, from: nat): (r: Option<nat>)
    decreases |text| - from
    ensures r.Some? ==> from <= r.value && FiveDigitAt(text, r.value)
    ensures r.Some? ==> forall j :: from <= j < r.value ==> !FiveDigitAt(text, j)
    ensures r.None? ==> forall j :: from <= j ==> !FiveDigitAt(text, j)
  {
    if from + 5 > |text| then None
    else if FiveDigitAt(text, from) then Some(from)
    else FindFiveDigitFrom(text, from + 1)
  }

  /**
   The entry built from one fragment (hebron_uni.js, lines 107-119): with a
   match, the first match is the id and the name is the text with that match
   cut out, trimmed; without one the id is `null` and the name is the text as
   it came, untrimmed.
   */
  function Normalize(text: string): (e: Entry)
    ensures e.id.Some? <==> exists i :: FiveDigitAt(text, i)
    ensures e.id.None? ==> e.name == text
    ensures e.id.Some? ==> exists i :: IsFirstMatch(text, i)
                                      && e.id.value == text[i..i + 5]
                                      && e.name == Trim(text[..i] + text[i + 5..])
  {
    match FindFiveDigitFrom(text, 0)
    case None =>
      assert !exists j :: FiveDigitAt(text, j);
      Entry(text, None)
    case Some(i) =>
      assert IsFirstMatch(text, i);
      assert FiveDigitAt(text, i);
      Entry(Trim(text[..i] + text[i + 5..]), Some(text[i..i + 5]))
  }

  /** Every fragment yields exactly one entry, in order. */
  function NormalizeAll(texts: seq<string>): (es: seq<Entry>)
    ensures |es| == |texts|
    ensures forall k :: 0 <= k < |texts| ==> es[k] == Normalize(texts[k])
  {
    seq(|texts|, k requires 0 <= k < |texts| => Normalize(texts[k]))
  }

  /** The five names `processArray` treats as empty: `''` and one to four spaces. */
  predicate IsBlank(name: string) {
    name == "" || name == " " || name == "  " || name == "   " || name == "    "
  }

  /**
   The repair `processArray` performs, as a function: an empty entry that has a
   successor takes the successor's name, keeps its own id, swallows the
   successor, and the scan moves on past it.
   */
  function Repair(es: seq<Entry>): seq<Entry> {
    if |es| < 2 then es
    else if IsBlank(es[0].name) then [es[0].(name := es[1].name)] + Repair(es[2..])
    else [es[0]] + Repair(es[1..])
  }

  /**
   `processArray` (hebron_uni.js, lines 126-140), with its in-place splice:
   the index moves on after every step, so the entry moved into place is not
   looked at again and the last entry is never examined. `merges` counts the
   splices.
   */
  method ProcessArray(arr: seq<Entry>) returns (r: seq<Entry>, merges: nat)
    ensures r == Repair(arr)
    ensures |r| == |arr| - merges
    ensures merges <= |arr| / 2
  {
    r := arr;
    merges := 0;
    var i := 0;
    while i < |r| - 1
      invariant 0 <= i <= |r|
      invariant r[..i] + Repair(r[i..]) == Repair(arr)
      invariant |r| == |arr| - merges
      invariant 2 * merges <= i + merges <= |arr|
    {
      if IsBlank(r[i].name) {
        BlankStep(r, i);
        r := r[..i] + [r[i].(name := r[i + 1].name)] + r[i + 2..];
        merges := merges + 1;
      } else {
        KeepStep(r, i);
      }
      i := i + 1;
    }
    assert r[..i] + r[i..] == r;
  }

  /** One splice of the loop keeps "done part + repair of the rest" unchanged. */
  lemma BlankStep(r: seq<Entry>, i: nat)
    requires i < |r| - 1 && IsBlank(r[i].name)
    ensures var r' := r[..i] + [r[i].(name := r[i + 1].name)] + r[i + 2..];
      |r'| == |r| - 1 && r'[..i + 1] + Repair(r'[i + 1..]) == r[..i] + Repair(r[i..])
  {
    var x := r[i].(name := r[i + 1].name);
    var tail := r[i + 2..];
    var r' := r[..i] + [x] + tail;
    assert r[i..][2..] == tail;
    assert Repair(r[i..]) == [x] + Repair(tail);
    assert r'[..i + 1] == r[..i] + [x];
    assert r'[i + 1..] == tail;
  }

  /** A step past a non-blank entry keeps it too. */
  lemma KeepStep(r: seq<Entry>, i: nat)
    requires i < |r| - 1 && !IsBlank(r[i].name)
    ensures r[..i + 1] + Repair(r[i + 1..]) == r[..i] + Repair(r[i..])
  {
    assert r[i..][1..] == r[i + 1..];
    assert Repair(r[i..]) == [r[i]] + Repair(r[i + 1..]);
    assert r[..i + 1] == r[..i] + [r[i]];
  }

  /**
   The entries of one page: every fragment normalised, then repaired
   (`extractTextFromStrongElements`).
   */
  function Extract(texts: seq<string>): seq<Entry> {
    Repair(NormalizeAll(texts))
  }

  /** Exactly the empty string and one to four spaces count as empty: a tab, a newline or five spaces do not. */
  lemma BlankExactly(name: string)
    ensures IsBlank(name) <==> |name| <= 4 && forall k :: 0 <= k < |name| ==> name[k] == ' '
  {
    if |name| <= 4 && forall k :: 0 <= k < |name| ==> name[k] == ' ' {
      if |name| == 1 {
        assert name == [name[0]];
      } else if |name| == 2 {
        assert name == [name[0], name[1]];
      } else if |name| == 3 {
        assert name == [name[0], name[1], name[2]];
      } else if |name| == 4 {
        assert name == [name[0], name[1], name[2], name[3]];
      }
    }
  }

  /**
   The repair leaves a sequence alone exactly when no entry before the last is
   empty.
   */
  lemma {:induction false} RepairIdentity(es: seq<Entry>)
    ensures Repair(es) == es <==> forall k :: 0 <= k < |es| - 1 ==> !IsBlank(es[k].name)
  {
    RepairLength(es);
    if |es| >= 2 {
      RepairIdentity(es[1..]);
      RepairLength(es[2..]);
      if !IsBlank(es[0].name) {
        assert es == [es[0]] + es[1..];
        assert (forall k :: 0 <= k < |es| - 1 ==> !IsBlank(es[k].name))
           <==> (forall k :: 0 <= k < |es[1..]| - 1 ==> !IsBlank(es[1..][k].name)) by {
          if forall k :: 0 <= k < |es[1..]| - 1 ==> !IsBlank(es[1..][k].name) {
            forall k | 0 <= k < |es| - 1
              ensures !IsBlank(es[k].name)
            {
              if k > 0 {
                assert es[k] == es[1..][k - 1];
              }
            }
          }
        }
      }
    }
  }

  /** Every merge removes one entry, and at most every other entry can be removed. */
  lemma {:induction false} RepairLength(es: seq<Entry>)
    ensures |es| - |es| / 2 <= |Repair(es)| <= |es|
    ensures |Repair(es)| < |es| <==> exists k :: 0 <= k < |es| - 1 && IsBlank(es[k].name)
  {
    if |es| >= 2 {
      RepairLength(es[1..]);
      RepairLength(es[2..]);
      if !IsBlank(es[0].name) {
        assert (exists k :: 0 <= k < |es| - 1 && IsBlank(es[k].name))
           <==> (exists k :: 0 <= k < |es[1..]| - 1 && IsBlank(es[1..][k].name)) by {
          if exists k :: 0 <= k < |es| - 1 && IsBlank(es[k].name) {
            var k :| 0 <= k < |es| - 1 && IsBlank(es[k].name);
            assert es[1..][k - 1] == es[k];
          }
          if exists k :: 0 <= k < |es[1..]| - 1 && IsBlank(es[1..][k].name) {
            var k :| 0 <= k < |es[1..]| - 1 && IsBlank(es[1..][k].name);
            assert es[k + 1] == es[1..][k];
          }
        }
      }
    }
  }

  /**
   The last repaired entry carries the last fragment's name, so a trailing
   empty entry is never filled in.
   */
  lemma {:induction false} RepairKeepsLastName(es: seq<Entry>)
    requires |es| >= 1
    ensures |Repair(es)| >= 1
    ensures Repair(es)[|Repair(es)| - 1].name == es[|es| - 1].name
    ensures Repair(es)[0].id == es[0].id
  {
    if |es| >= 2 {
      if IsBlank(es[0].name) {
        if |es| > 2 {
          RepairKeepsLastName(es[2..]);
        }
      } else {
        RepairKeepsLastName(es[1..]);
      }
    }
  }

  /**
   `e` stems from input position `j`: it is the entry there, or that entry was
   empty and took its successor's name.
   */
  predicate ComesFrom(es: seq<Entry>, j: int, e: Entry) {
    && 0 <= j < |es|
    && (e == es[j] || (j + 1 < |es| && IsBlank(es[j].name) && e == Entry(es[j + 1].name, es[j].id)))
  }

  lemma ComesFromShift(es: seq<Entry>, d: nat, j: int, e: Entry)
    requires d <= |es| && ComesFrom(es[d..], j, e)
    ensures ComesFrom(es, j + d, e)
  {
    assert es[d..][j] == es[j + d];
    if j + 1 < |es[d..]| {
      assert es[d..][j + 1] == es[j + d + 1];
    }
  }

  /**
   Every repaired entry is an input entry, or an empty input entry that took
   its successor's name and kept its own id.
   */
  lemma RepairProvenance(es: seq<Entry>)
    ensures forall e :: e in Repair(es) ==> exists j :: ComesFrom(es, j, e)
  {
    var r := Repair(es);
    forall e | e in r
      ensures exists j :: ComesFrom(es, j, e)
    {
      var k :| 0 <= k < |r| && r[k] == e;
      var j := RepairSource(es, k);
    }
  }

  /** The input position repaired entry `k` stems from. */
  lemma {:induction false} RepairSource(es: seq<Entry>, k: int) returns (j: int)
    requires 0 <= k < |Repair(es)|
    ensures ComesFrom(es, j, Repair(es)[k])
  {
    var r := Repair(es);
    if |es| < 2 {
      j := k;
    } else if k == 0 {
      j := 0;
    } else {
      var d := if IsBlank(es[0].name) then 2 else 1;
      var rest := Repair(es[d..]);
      assert r == [r[0]] + rest;
      assert r[k] == rest[k - 1];
      var j' := RepairSource(es[d..], k - 1);
      ComesFromShift(es, d, j', r[k]);
      j := j' + d;
    }
  }

  /**
   Two empty entries before a label do not collapse into one: the first takes
   the second's empty name and the label survives untouched, so
   `[empty, empty, x]` becomes `[empty, x]`.
   */
  lemma DoubleBlankExample(a: Entry, b: Entry, x: Entry)
    requires IsBlank(a.name) && IsBlank(b.name)
    ensures Repair([a, b, x]) == [a.(name := b.name), x]
    ensures IsBlank(Repair([a, b, x])[0].name)
  {
    assert [a, b, x][2..] == [x];
  }

  /**
   A course number and its label in two separate fragments are joined into one
   entry: `["10002", "Science"]` becomes `[{name: "Science", id: "10002"}]`.
   */
  lemma SplitLabelExample()
    ensures Extract(["10002", "Science"]) == [Entry("Science", Some("10002"))]
  {
    NormalizeNumberOnly();
    NormalizeLabelOnly();
    SplitLabel("10002", "Science");
  }

  /** A bare number followed by a bare label: the two become one entry. */
  lemma SplitLabel(t1: string, t2: string)
    requires Normalize(t1).name == [] && Normalize(t2).id.None?
    ensures Extract([t1, t2]) == [Entry(Normalize(t2).name, Normalize(t1).id)]
  {
    var n := NormalizeAll([t1, t2]);
    assert n[0] == Normalize(t1) && n[1] == Normalize(t2);
    assert IsBlank(n[0].name);
    assert n[2..] == [];
    assert Repair(n) == [n[0].(name := n[1].name)] + Repair(n[2..]);
    assert Repair(n[2..]) == [];
  }

  lemma NormalizeNumberOnly()
    ensures Normalize("10002") == Entry([], Some("10002"))
  {
    var t := "10002";
    assert FiveDigitAt(t, 0);
    assert FindFiveDigitFrom(t, 0) == Some(0);
    assert t[..0] + t[5..] == [];
    assert t[0..5] == t;
  }

  /** A fragment without digits is kept whole, with a `null` id. */
  lemma NormalizeNoDigits(t: string)
    requires forall k :: 0 <= k < |t| ==> !IsDigit(t[k])
    ensures Normalize(t) == Entry(t, None)
  {
    forall j | 0 <= j
      ensures !FiveDigitAt(t, j)
    {
      if j + 5 <= |t| {
        assert !IsDigit(t[j]);
      }
    }
  }

  lemma NormalizeLabelOnly()
    ensures Normalize("Science") == Entry("Science", None)
  {
    var t := "Science";
    assert |t| == 7;
    assert t[0] == 'S' && t[1] == 'c' && t[2] == 'i' && t[3] == 'e' && t[4] == 'n' && t[5] == 'c' && t[6] == 'e';
    NormalizeNoDigits(t);
  }
}
