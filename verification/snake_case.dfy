/**
 The name canonicaliser every script carries a copy of:
 `text.trim().replace(/\W+/g, '_').toLowerCase()`, and the institution
 prefix (`hu_`, `ppu_`, `ptuk_`, `grad_`) put in front of it.
 */
module Naming {
  import opened Text

  predicate AllWord(s: string) {
    forall i :: 0 <= i < |s| ==> IsWordChar(s[i])
  }

  predicate AllNonWord(s: string) {
    forall i :: 0 <= i < |s| ==> !IsWordChar(s[i])
  }

  /**
   `replace(/\W+/g, '_')` as a left-to-right scan: a non-word character
   starts a run and emits `_` unless the previous character already did;
   `inRun` says it did.
   */
  function CollapseFrom(s: string, inRun: bool): string
    decreases |s|
  {
    if s == [] then [] else Emit(s[0], inRun) + CollapseFrom(s[1..], !IsWordChar(s[0]))
  }

  /** What one character contributes: itself, the `_` opening a run, or nothing inside one. */
  function Emit(c: char, inRun: bool): string {
    if IsWordChar(c) then [c] else if inRun then [] else "_"
  }

  /** Every maximal run of non-word characters becomes one `_`. */
  function Collapse(s: string): (r: string)
    ensures AllWord(r)
    ensures |r| <= |s|
    ensures r == [] <==> s == []
  {
    CollapseFromShape(s, false);
    CollapseFrom(s, false)
  }

  /** The scan emits only word characters, at most one per character read. */
  lemma {:induction false} CollapseFromShape(s: string, inRun: bool)
    ensures AllWord(CollapseFrom(s, inRun))
    ensures |CollapseFrom(s, inRun)| <= |s|
    decreases |s|
  {
    if s != [] {
      CollapseFromShape(s[1..], !IsWordChar(s[0]));
    }
  }

  /** The characters a canonical name is made of. */
  predicate IsSnakeChar(c: char) {
    'a' <= c <= 'z' || '0' <= c <= '9' || c == '_'
  }

  predicate IsSnake(s: string) {
    forall i :: 0 <= i < |s| ==> IsSnakeChar(s[i])
  }

  /**
   `snakeCase`: only `[a-z0-9_]` comes out, because lowering happens after the
   non-word runs are gone; it is empty exactly when the text is all white space.
   */
  function SnakeCase(text: string): (r: string)
    ensures IsSnake(r)
    ensures |r| <= |text|
    ensures r == [] <==> AllSpace(text)
  {
    ToLower(Collapse(Trim(text)))
  }

  /** The canonical id of a name under an institution prefix such as `"ppu_"`. */
  function Canonical(prefix: string, text: string): (r: string)
    ensures |r| >= |prefix| && r[..|prefix|] == prefix
    ensures IsSnake(r[|prefix|..])
  {
    assert (prefix + SnakeCase(text))[|prefix|..] == SnakeCase(text);
    prefix + SnakeCase(text)
  }

  /** Whether the scan is inside a run after reading `a` from state `inRun`. */
  function EndsInRun(a: string, inRun: bool): bool {
    if a == [] then inRun else !IsWordChar(a[|a| - 1])
  }

  /** The scan over a concatenation continues over `b` from the state `a` leaves. */
  lemma {:induction false} CollapseFromAppend(a: string, b: string, inRun: bool)
    ensures CollapseFrom(a + b, inRun) == CollapseFrom(a, inRun) + CollapseFrom(b, EndsInRun(a, inRun))
    decreases |a|
  {
    if a == [] {
      assert a + b == b;
    } else {
      var ab := a + b;
      assert ab != [] && ab[0] == a[0] && ab[1..] == a[1..] + b;
      var next := !IsWordChar(a[0]);
      var e := Emit(a[0], inRun);
      CollapseFromAppend(a[1..], b, next);
      EndsInRunCons(a, inRun);
      calc {
        CollapseFrom(ab, inRun);
        e + CollapseFrom(a[1..] + b, next);
        e + (CollapseFrom(a[1..], next) + CollapseFrom(b, EndsInRun(a, inRun)));
        (e + CollapseFrom(a[1..], next)) + CollapseFrom(b, EndsInRun(a, inRun));
        CollapseFrom(a, inRun) + CollapseFrom(b, EndsInRun(a, inRun));
      }
    }
  }

  lemma EndsInRunCons(a: string, inRun: bool)
    requires a != []
    ensures EndsInRun(a[1..], !IsWordChar(a[0])) == EndsInRun(a, inRun)
  {
    if a[1..] != [] {
      assert a[1..][|a[1..]| - 1] == a[|a| - 1];
    }
  }

  /** A string of word characters only is left alone by the run replacement. */
  lemma {:induction false} CollapseWord(s: string, inRun: bool)
    requires AllWord(s)
    ensures CollapseFrom(s, inRun) == s
    decreases |s|
  {
    if s != [] {
      CollapseWord(s[1..], false);
      assert s == [s[0]] + s[1..];
    }
  }

  /** Inside a run, further non-word characters emit nothing. */
  lemma {:induction false} CollapseInRun(s: string)
    requires AllNonWord(s)
    ensures CollapseFrom(s, true) == []
    decreases |s|
  {
    if s != [] {
      CollapseInRun(s[1..]);
    }
  }

  /** A non-empty run of non-word characters becomes a single `_`. */
  lemma CollapseRun(s: string)
    requires s != [] && AllNonWord(s)
    ensures Collapse(s) == "_"
  {
    CollapseInRun(s[1..]);
  }

  /**
   The run replacement works piecewise wherever the cut does not fall inside a
   run of non-word characters; with `CollapseWord` and `CollapseRun` this pins
   `Collapse` down on every string.
   */
  lemma CollapseAppend(a: string, b: string)
    requires a == [] || b == [] || IsWordChar(a[|a| - 1]) || IsWordChar(b[0])
    ensures Collapse(a + b) == Collapse(a) + Collapse(b)
  {
    CollapseFromAppend(a, b, false);
    if b != [] && IsWordChar(b[0]) {
      assert CollapseFrom(b, true) == CollapseFrom(b, false);
    }
  }

  /** A canonical-looking string is its own canonical form. */
  lemma SnakeCaseFixesSnake(s: string)
    requires IsSnake(s)
    ensures SnakeCase(s) == s
  {
    SnakeNotSpace(s);
    TrimFixed(s);
    assert AllWord(s);
    CollapseWord(s, false);
    LowerSnake(s);
  }

  lemma SnakeNotSpace(s: string)
    requires IsSnake(s)
    ensures s == [] || (!IsSpace(s[0]) && !IsSpace(s[|s| - 1]))
  {
    if s != [] {
      assert IsSnakeChar(s[0]) && IsSnakeChar(s[|s| - 1]);
    }
  }

  lemma LowerSnake(s: string)
    requires IsSnake(s)
    ensures ToLower(s) == s
  {
    forall i | 0 <= i < |s|
      ensures ToLower(s)[i] == s[i]
    {
      assert IsSnakeChar(s[i]);
    }
  }

  /** `snakeCase` is idempotent. */
  lemma SnakeCaseIdempotent(text: string)
    ensures SnakeCase(SnakeCase(text)) == SnakeCase(text)
  {
    SnakeCaseFixesSnake(SnakeCase(text));
  }

  /**
   A prefixed canonical id is stable: canonicalising it again, prefix and all,
   gives it back.
   */
  lemma CanonicalStable(prefix: string, text: string)
    requires IsSnake(prefix)
    ensures SnakeCase(Canonical(prefix, text)) == Canonical(prefix, text)
  {
    var r := Canonical(prefix, text);
    assert r == r[..|prefix|] + r[|prefix|..];
    SnakeCaseFixesSnake(r);
  }

  /** `snakeCase` trims first, so trimming beforehand changes nothing. */
  lemma SnakeCaseOfTrim(text: string)
    ensures SnakeCase(Trim(text)) == SnakeCase(text)
  {
    TrimIdempotent(text);
  }

  /**
   Trailing punctuation still leaves a trailing `_`: a word, a run, a word and
   a run ending in a visible character give `w1_w2_`, lower-cased.
   */
  lemma TrailingRun(w1: string, r1: string, w2: string, r2: string)
    requires w1 != [] && w2 != [] && r1 != [] && r2 != []
    requires AllWord(w1) && AllWord(w2) && AllNonWord(r1) && AllNonWord(r2)
    requires !IsSpace(r2[|r2| - 1])
    ensures SnakeCase(w1 + (r1 + (w2 + r2))) == ToLower(w1) + ("_" + (ToLower(w2) + "_"))
  {
    var s := w1 + (r1 + (w2 + r2));
    assert s[0] == w1[0] && s[|s| - 1] == r2[|r2| - 1];
    assert !IsSpace(w1[0]) by {
      assert IsWordChar(w1[0]);
    }
    TrimFixed(s);
    CollapseWordRunWordRun(w1, r1, w2, r2);
    ToLowerAppend(w1, "_" + (w2 + "_"));
    ToLowerAppend("_", w2 + "_");
    ToLowerAppend(w2, "_");
  }

  /** `"Arts Department!!"` canonicalises to `"arts_department_"`. */
  lemma ArtsDepartmentExample()
    ensures SnakeCase("Arts" + (" " + ("Department" + "!!"))) == "arts" + ("_" + ("department" + "_"))
  {
    TrailingRun("Arts", " ", "Department", "!!");
    LowerArts();
    LowerDepartment();
  }

  lemma LowerArts()
    ensures ToLower("Arts") == "arts"
  {
    assert LowerChar('A') == 'a';
  }

  lemma LowerDepartment()
    ensures ToLower("Department") == "department"
  {
    assert LowerChar('D') == 'd';
  }

  /** A word, a run, a word and a trailing run collapse to `w1 + "_" + w2 + "_"`. */
  lemma CollapseWordRunWordRun(w1: string, r1: string, w2: string, r2: string)
    requires w1 != [] && w2 != [] && r1 != [] && r2 != []
    requires AllWord(w1) && AllWord(w2) && AllNonWord(r1) && AllNonWord(r2)
    ensures Collapse(w1 + (r1 + (w2 + r2))) == w1 + ("_" + (w2 + "_"))
  {
    CollapseWord(w1, false);
    CollapseWord(w2, false);
    CollapseRun(r1);
    CollapseRun(r2);
    CollapseAppend(w2, r2);
    assert (w2 + r2)[0] == w2[0];
    CollapseAppend(r1, w2 + r2);
    assert (r1 + (w2 + r2))[0] == r1[0];
    CollapseAppend(w1, r1 + (w2 + r2));
  }
}
