/**
 The program page addresses the scripts read from the prompt
 (`input.split(',').map(link => link.trim())`) and the Arabic address they
 derive from each English one (`link.replace("en", "ar")`).
 */
module Urls {
  import opened Text

  /** The comma-separated answer, each piece trimmed. */
  function Links(input: string): (links: seq<string>)
    ensures |links| == |Split(input, ',')|
    ensures forall i :: 0 <= i < |links| ==> links[i] == Trim(Split(input, ',')[i])
  {
    var parts := Split(input, ',');
    seq(|parts|, i requires 0 <= i < |parts| => Trim(parts[i]))
  }

  /**
   There is always at least one link (an empty answer gives one empty link),
   none holds a comma, and none starts or ends with white space.
   */
  lemma LinksShape(input: string)
    ensures |Links(input)| >= 1
    ensures forall i :: 0 <= i < |Links(input)| ==> ',' !in Links(input)[i]
    ensures forall i :: 0 <= i < |Links(input)| ==> Trim(Links(input)[i]) == Links(input)[i]
  {
    var parts := Split(input, ',');
    forall i | 0 <= i < |parts|
      ensures ',' !in Trim(parts[i]) && Trim(Trim(parts[i])) == Trim(parts[i])
    {
      TrimIdempotent(parts[i]);
      TrimInside(parts[i], ',');
    }
  }

  /** Trimming only drops characters from the ends. */
  lemma TrimInside(s: string, c: char)
    requires c !in s
    ensures c !in Trim(s)
  {
    var t := TrimStart(s);
    assert forall x :: x in t ==> x in s;
    assert forall x :: x in TrimEnd(t) ==> x in t;
  }

  /** An answer whose pieces carry no surrounding white space is restored by joining the links. */
  lemma LinksJoin(input: string)
    requires forall i :: 0 <= i < |Split(input, ',')| ==> Trim(Split(input, ',')[i]) == Split(input, ',')[i]
    ensures Join(Links(input), ',') == input
  {
    assert Links(input) == Split(input, ',');
    JoinSplit(input, ',');
  }

  /**
   The Arabic page: the first `en` of the address becomes `ar`, wherever it
   is; an address without `en` is used as it is.
   */
  function ArabicLink(link: string): (ar: string)
    ensures |ar| == |link|
    ensures forall i: nat :: IsFirstOccurrence(link, "en", i) ==> ar == link[..i] + "ar" + link[i + 2..]
    ensures (forall i: nat :: !OccursAt(link, "en", i)) ==> ar == link
  {
    ReplaceFirst(link, "en", "ar")
  }
}
