/**
 * The multi-pattern search that locates headers, specified by its result.
 * An ASCII-case-insensitive Aho-Corasick automaton with the standard match
 * semantics reports matches in the order the scan detects them: the match
 * that ends first; among matches ending at the same byte the longest
 * pattern (the automaton state's own pattern comes before the ones it
 * inherits through failure links); among equally long ones the lowest
 * pattern index.
 */
module Search {
  import opened Common

  datatype Match = Match(pattern: nat, start: nat)

  /**
   * The pattern reported among those of `pats[i..]` that end exactly at `e`:
   * the longest one, and the lowest index among equally long ones.
   */
  function ReportedAt(hay: Bytes, pats: seq<Bytes>, e: nat, i: nat): (r: Option<nat>)
    ensures r.Some? ==> i <= r.value < |pats| && EndsAt(hay, pats[r.value], e)
    ensures r.Some? ==> forall j :: i <= j < |pats| && EndsAt(hay, pats[j], e) ==>
      |pats[j]| < |pats[r.value]| || (|pats[j]| == |pats[r.value]| && r.value <= j)
    ensures r.None? ==> forall j :: i <= j < |pats| ==> !EndsAt(hay, pats[j], e)
    decreases |pats| - i
  {
    if i >= |pats| then None
    else
      var rest := ReportedAt(hay, pats, e, i + 1);
      if EndsAt(hay, pats[i], e) && (rest.None? || |pats[rest.value]| <= |pats[i]|) then Some(i)
      else rest
  }

  /** The end of a match: one past its last byte. */
  function End(pats: seq<Bytes>, m: Match): nat
    requires m.pattern < |pats|
  {
    m.start + |pats[m.pattern]|
  }

  /** The first match whose end is at `e` or later. */
  function FirstMatchFrom(hay: Bytes, pats: seq<Bytes>, e: nat): (r: Option<Match>)
    ensures r.Some? ==> r.value.pattern < |pats| && e <= End(pats, r.value)
    ensures r.Some? ==> EndsAt(hay, pats[r.value.pattern], End(pats, r.value))
    ensures r.Some? ==> forall j, e' :: 0 <= j < |pats| && e <= e' < End(pats, r.value) ==> !EndsAt(hay, pats[j], e')
    ensures r.Some? ==> forall j :: 0 <= j < |pats| && EndsAt(hay, pats[j], End(pats, r.value)) ==>
      |pats[j]| < |pats[r.value.pattern]| || (|pats[j]| == |pats[r.value.pattern]| && r.value.pattern <= j)
    ensures r.None? ==> forall j, e' :: 0 <= j < |pats| && e <= e' ==> !EndsAt(hay, pats[j], e')
    decreases |hay| + 1 - e
  {
    if e > |hay| then None
    else match ReportedAt(hay, pats, e, 0)
      case Some(k) => Some(Match(k, e - |pats[k]|))
      case None => FirstMatchFrom(hay, pats, e + 1)
  }

  /** What `AhoCorasick::find` returns on the whole haystack. */
  function FirstMatch(hay: Bytes, pats: seq<Bytes>): (r: Option<Match>)
    ensures r.Some? ==> r.value.pattern < |pats| && EndsAt(hay, pats[r.value.pattern], End(pats, r.value))
    ensures r.Some? ==> forall j, e': nat :: 0 <= j < |pats| && e' < End(pats, r.value) ==> !EndsAt(hay, pats[j], e')
    ensures r.Some? ==> forall j :: 0 <= j < |pats| && EndsAt(hay, pats[j], End(pats, r.value)) ==>
      |pats[j]| < |pats[r.value.pattern]| || (|pats[j]| == |pats[r.value.pattern]| && r.value.pattern <= j)
    ensures r.None? <==> forall j, e': nat :: 0 <= j < |pats| ==> !EndsAt(hay, pats[j], e')
  {
    FirstMatchFrom(hay, pats, 0)
  }
}
