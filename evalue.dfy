/** The ranking values the database search attaches to its alignments before
    they are gathered and merged: the negated score, so that ascending order
    of value is descending order of score. */
module EValue {
  import opened Bytes
  import opened MpiCodec
  import opened MpiGather

  /** The values `eValues` assigns to the first `|scores|` database chains. */
  function Negated(scores: seq<int32>): seq<int>
  {
    seq(|scores|, i requires 0 <= i < |scores| => -(scores[i] as int))
  }

  /** `eValues`: `values[i] = -scores[i]` for the first `databaseLen` chains;
      the rest of `values`, and `scores`, are left as they were. */
  method EValues(values: array<int>, scores: array<int32>, databaseLen: nat)
    requires databaseLen <= values.Length && databaseLen <= scores.Length
    modifies values
    ensures values[..] == Negated(scores[..databaseLen]) + old(values[databaseLen..])
  {
    for i := 0 to databaseLen
      invariant forall k :: 0 <= k < i ==> values[k] == -(scores[k] as int)
      invariant forall k :: i <= k < values.Length ==> values[k] == old(values[k])
    {
      values[i] := -(scores[i] as int);
    }
    assert values[..] == values[..databaseLen] + values[databaseLen..];
  }

  /** Scores in non-increasing order. */
  predicate ScoresDescending(s: seq<DbAlignment>)
  {
    forall i, j :: 0 <= i < j < |s| ==> s[i].score >= s[j].score
  }

  /** Every alignment carries the value `eValues` gives its score. */
  predicate Ranked(s: seq<DbAlignment>)
  {
    forall i :: 0 <= i < |s| ==> s[i].value as int == -(s[i].score as int)
  }

  /** Ranked by `eValues`, `dbAlignmentCmp` puts the higher score first. */
  lemma CmpPrefersHigherScore(a: DbAlignment, b: DbAlignment)
    requires a.value as int == -(a.score as int) && b.value as int == -(b.score as int)
    ensures DbAlignmentCmp(a, b) < 0 <==> a.score > b.score
    ensures DbAlignmentCmp(a, b) == 0 <==> a.score == b.score
  {
  }

  /** A list sorted by ascending value, as the gather and merge keep it, is
      sorted by descending score, and the other way round. */
  lemma SortedByValueIsByScore(s: seq<DbAlignment>)
    requires Ranked(s)
    ensures Sorted(s) <==> ScoresDescending(s)
  {
  }

  /** The values written for a prefix of scores order the chains as their
      scores do, reversed. */
  lemma NegatedReversesOrder(scores: seq<int32>, i: nat, j: nat)
    requires i < |scores| && j < |scores|
    ensures Negated(scores)[i] <= Negated(scores)[j] <==> scores[i] >= scores[j]
  {
  }
}
