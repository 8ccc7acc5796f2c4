/** What `post_proc.c` computes from an alignment's move path before it prints
    anything: the validity check `checkAlignment`, the two gapped rows of
    `aligmentStr`, and the integer counts of `outputStat` and
    `outputDatabaseBlastM8`. */
module PostProc {

  datatype Option<T> = None | Some(value: T)

  /** One step of a traceback path. LEFT takes a target residue against a gap
      in the query, UP a query residue against a gap in the target, DIAG one
      residue of each. A path byte that is none of the three is `Other`. */
  datatype Move = Left | Up | Diag | Other

  /** The alignment fields the checks read. `queryEnd` and `targetEnd` are
      the last aligned positions, not one past them. */
  datatype Alignment = Alignment(
    query: string, queryStart: int, queryEnd: int,
    target: string, targetStart: int, targetEnd: int,
    score: int, path: seq<Move>)

  /** The affine gap penalties of the scorer. The substitution score of two
      residues, `scorerScore` of their codes, is passed separately as
      `pairScore`. */
  datatype Penalties = Penalties(gapOpen: int, gapExtend: int)

  /** Number of times `m` occurs among the first `n` moves of `path`. */
  function Count(path: seq<Move>, n: nat, m: Move): (k: nat)
    requires n <= |path|
    ensures k <= n
  {
    if n == 0 then 0 else Count(path, n - 1, m) + (if path[n - 1] == m then 1 else 0)
  }

  // ---------------------------------------------------------------------------
  // checkAlignment

  /** The variables of the backward replay. */
  datatype Replay = Replay(score: int, queryIdx: int, targetIdx: int, isQueryGap: bool, isTargetGap: bool)

  /** The replay starts at the last aligned positions with no gap open. */
  function Start(a: Alignment): Replay
  {
    Replay(0, a.queryEnd, a.targetEnd, false, false)
  }

  /** One move of the replay. A gap move costs `gapExtend` when the move
      replayed just before it (the next one along the path) opened or
      extended the same gap, and `gapOpen` otherwise; DIAG adds the
      substitution score of the two residues it passes, read only when both
      indices are inside the chains. */
  function Step(st: Replay, m: Move, a: Alignment, pairScore: (char, char) -> int, p: Penalties): Option<Replay>
  {
    match m
    case Left =>
      Some(Replay(st.score - (if st.isTargetGap then p.gapExtend else p.gapOpen), st.queryIdx, st.targetIdx - 1, false, true))
    case Up =>
      Some(Replay(st.score - (if st.isQueryGap then p.gapExtend else p.gapOpen), st.queryIdx - 1, st.targetIdx, true, false))
    case Diag =>
      if 0 <= st.queryIdx < |a.query| && 0 <= st.targetIdx < |a.target| then
        Some(Replay(st.score + pairScore(a.query[st.queryIdx], a.target[st.targetIdx]),
                    st.queryIdx - 1, st.targetIdx - 1, false, false))
      else None
    case Other => None
  }

  /** The replay of the first `n` moves of `path`, from move `n - 1` back
      to move 0. */
  function ReplayBack(path: seq<Move>, n: nat, st: Replay, a: Alignment, pairScore: (char, char) -> int, p: Penalties)
    : Option<Replay>
    requires n <= |path|
  {
    if n == 0 then Some(st)
    else
      match Step(st, path[n - 1], a, pairScore, p)
      case None => None
      case Some(next) => ReplayBack(path, n - 1, next, a, pairScore, p)
  }

  /** The endpoint check of `checkAlignment` with the query and target end
      inside the chains. */
  predicate InBounds(a: Alignment)
  {
    !(a.queryStart < 0 || a.queryStart > a.queryEnd || a.queryEnd >= |a.query| ||
      a.targetStart < 0 || a.targetStart > a.targetEnd || a.targetEnd >= |a.target|)
  }

  /** The endpoint check as `checkAlignment` writes it: an end equal to the
      chain length passes. */
  predicate InBoundsAsWritten(a: Alignment)
  {
    !(a.queryStart < 0 || a.queryStart > a.queryEnd || a.queryEnd > |a.query| ||
      a.targetStart < 0 || a.targetStart > a.targetEnd || a.targetEnd > |a.target|)
  }

  /** `checkAlignment` answers 1: the endpoints are in range, every move is
      known, the replay ends just before the start positions, and it
      reproduces the stored score. */
  predicate Valid(a: Alignment, pairScore: (char, char) -> int, p: Penalties)
  {
    && InBounds(a)
    && var r := ReplayBack(a.path, |a.path|, Start(a), a, pairScore, p);
    && r.Some?
    && r.value.queryIdx == a.queryStart - 1
    && r.value.targetIdx == a.targetStart - 1
    && r.value.score == a.score
  }

  /** `checkAlignment`: the endpoint check, then the replay loop from the
      last move to the first. */
  method CheckAlignment(a: Alignment, pairScore: (char, char) -> int, p: Penalties) returns (valid: bool)
    ensures valid == Valid(a, pairScore, p)
  {
    var queryLen, targetLen := |a.query|, |a.target|;
    if a.queryStart < 0 || a.queryStart > a.queryEnd || a.queryEnd >= queryLen ||
       a.targetStart < 0 || a.targetStart > a.targetEnd || a.targetEnd >= targetLen {
      return false;
    }
    var isQueryGap, isTargetGap := false, false;
    var score := 0;
    var queryIdx, targetIdx := a.queryEnd, a.targetEnd;
    ghost var whole := ReplayBack(a.path, |a.path|, Start(a), a, pairScore, p);
    var i := |a.path|;
    while i > 0
      invariant 0 <= i <= |a.path|
      invariant whole == ReplayBack(a.path, i, Replay(score, queryIdx, targetIdx, isQueryGap, isTargetGap), a, pairScore, p)
    {
      i := i - 1;
      match a.path[i] {
        case Left =>
          score := score - (if isTargetGap then p.gapExtend else p.gapOpen);
          targetIdx := targetIdx - 1;
          isQueryGap, isTargetGap := false, true;
        case Up =>
          score := score - (if isQueryGap then p.gapExtend else p.gapOpen);
          queryIdx := queryIdx - 1;
          isQueryGap, isTargetGap := true, false;
        case Diag =>
          if !(0 <= queryIdx < queryLen && 0 <= targetIdx < targetLen) {
            return false;
          }
          score := score + pairScore(a.query[queryIdx], a.target[targetIdx]);
          queryIdx, targetIdx := queryIdx - 1, targetIdx - 1;
          isQueryGap, isTargetGap := false, false;
        case Other =>
          return false;
      }
    }
    valid := queryIdx == a.queryStart - 1 && targetIdx == a.targetStart - 1 && a.score == score;
  }

  /** Each UP or DIAG replayed moves the query index back by one, each LEFT
      or DIAG the target index. */
  lemma {:induction false} ReplayIndices(path: seq<Move>, n: nat, st: Replay, a: Alignment, pairScore: (char, char) -> int, p: Penalties)
    requires n <= |path| && ReplayBack(path, n, st, a, pairScore, p).Some?
    ensures ReplayBack(path, n, st, a, pairScore, p).value.queryIdx == st.queryIdx - Count(path, n, Up) - Count(path, n, Diag)
    ensures ReplayBack(path, n, st, a, pairScore, p).value.targetIdx == st.targetIdx - Count(path, n, Left) - Count(path, n, Diag)
  {
    if n > 0 {
      var next := Step(st, path[n - 1], a, pairScore, p).value;
      ReplayIndices(path, n - 1, next, a, pairScore, p);
    }
  }

  /** A valid alignment's path has one UP or DIAG per aligned query position
      and one LEFT or DIAG per aligned target position; so it is never empty. */
  lemma ValidCounts(a: Alignment, pairScore: (char, char) -> int, p: Penalties)
    requires Valid(a, pairScore, p)
    ensures Count(a.path, |a.path|, Up) + Count(a.path, |a.path|, Diag) == a.queryEnd - a.queryStart + 1
    ensures Count(a.path, |a.path|, Left) + Count(a.path, |a.path|, Diag) == a.targetEnd - a.targetStart + 1
    ensures a.path != []
  {
    ReplayIndices(a.path, |a.path|, Start(a), a, pairScore, p);
  }

  /** A path holding any move other than LEFT, UP and DIAG is never valid. */
  lemma {:induction false} OtherRefused(path: seq<Move>, n: nat, st: Replay, a: Alignment, pairScore: (char, char) -> int, p: Penalties)
    requires n <= |path| && exists j :: 0 <= j < n && path[j] == Other
    ensures ReplayBack(path, n, st, a, pairScore, p) == None
  {
    if path[n - 1] != Other {
      var next := Step(st, path[n - 1], a, pairScore, p);
      if next.Some? {
        OtherRefused(path, n - 1, next.value, a, pairScore, p);
      }
    }
  }

  /** Nothing the replay reads lies past the end of a chain: the read
      positions only go down from `queryEnd` and `targetEnd`. */
  lemma ReplayStaysBelow(path: seq<Move>, n: nat, st: Replay, a: Alignment, pairScore: (char, char) -> int, p: Penalties)
    requires n <= |path| && ReplayBack(path, n, st, a, pairScore, p).Some?
    ensures ReplayBack(path, n, st, a, pairScore, p).value.queryIdx <= st.queryIdx
    ensures ReplayBack(path, n, st, a, pairScore, p).value.targetIdx <= st.targetIdx
  {
    ReplayIndices(path, n, st, a, pairScore, p);
  }

  /** The endpoint check as written lets through an alignment whose query end
      is the query length: one residue "A" against "A", both ends 1, path
      DIAG DIAG. The first move replayed is a DIAG, and it reads query
      position 1, one past the end of the chain. */
  lemma EndReadPastChain()
    ensures var a := Alignment("A", 0, 1, "A", 0, 1, 0, [Diag, Diag]);
      && InBoundsAsWritten(a)
      && a.path[|a.path| - 1] == Diag
      && Start(a).queryIdx == |a.query|
      && !InBounds(a)
  {
  }

  /** The end check does not bound the replay from below: one residue "A"
      against "A", both ends 0, path DIAG DIAG passes it, and the second DIAG
      replayed would read position -1 of both chains. The guarded read in
      `Step` refuses it; the final index test would refuse it anyway. */
  lemma DiagBelowStart()
    ensures var a := Alignment("A", 0, 0, "A", 0, 0, 0, [Diag, Diag]);
      && InBounds(a)
      && Step(Start(a), a.path[1], a, (x, y) => 0, Penalties(0, 0)) == Some(Replay(0, -1, -1, false, false))
      && ReplayBack(a.path, 2, Start(a), a, (x, y) => 0, Penalties(0, 0)) == None
  {
  }

  // ---------------------------------------------------------------------------
  // aligmentStr

  /** How many moves are filled in: those before the first `Other`. */
  function Known(path: seq<Move>): (n: nat)
    ensures n <= |path|
    ensures forall j :: 0 <= j < n ==> path[j] != Other
    ensures n < |path| ==> path[n] == Other
  {
    KnownFrom(path, 0)
  }

  function KnownFrom(path: seq<Move>, i: nat): (n: nat)
    requires i <= |path|
    ensures i <= n <= |path|
    ensures forall j :: i <= j < n ==> path[j] != Other
    ensures n < |path| ==> path[n] == Other
    decreases |path| - i
  {
    if i == |path| || path[i] == Other then i else KnownFrom(path, i + 1)
  }

  /** Query residues taken by the first `i` moves. */
  function QueryUsed(path: seq<Move>, i: nat): nat
    requires i <= |path|
  {
    Count(path, i, Up) + Count(path, i, Diag)
  }

  /** Target residues taken by the first `i` moves. */
  function TargetUsed(path: seq<Move>, i: nat): nat
    requires i <= |path|
  {
    Count(path, i, Left) + Count(path, i, Diag)
  }

  /** Every residue the filled moves read lies inside its chain. */
  predicate RowsFit(a: Alignment)
  {
    && 0 <= a.queryStart && a.queryStart + QueryUsed(a.path, Known(a.path)) <= |a.query|
    && 0 <= a.targetStart && a.targetStart + TargetUsed(a.path, Known(a.path)) <= |a.target|
  }

  /** Every alignment `checkAlignment` accepts has its rows inside the
      chains, so `aligmentStr` and `outputStat` read only residues that exist. */
  lemma ValidRowsFit(a: Alignment, pairScore: (char, char) -> int, p: Penalties)
    requires Valid(a, pairScore, p)
    ensures Known(a.path) == |a.path|
    ensures RowsFit(a)
  {
    if Other in a.path {
      var j :| 0 <= j < |a.path| && a.path[j] == Other;
      OtherRefused(a.path, |a.path|, Start(a), a, pairScore, p);
    }
    ValidCounts(a, pairScore, p);
  }

  lemma UsedGrows(path: seq<Move>, i: nat, j: nat)
    requires i <= j <= |path|
    ensures QueryUsed(path, i) <= QueryUsed(path, j) && TargetUsed(path, i) <= TargetUsed(path, j)
    decreases j - i
  {
    if i < j {
      UsedGrows(path, i, j - 1);
    }
  }

  /** Column `i` of the query row: the gap character for LEFT, otherwise the
      next query residue not yet used. */
  function QueryRowAt(a: Alignment, i: nat, gap: char): char
    requires RowsFit(a) && i < Known(a.path)
  {
    UsedGrows(a.path, i + 1, Known(a.path));
    if a.path[i] == Left then gap else a.query[a.queryStart + QueryUsed(a.path, i)]
  }

  /** Column `i` of the target row: the gap character for UP, otherwise the
      next target residue not yet used. */
  function TargetRowAt(a: Alignment, i: nat, gap: char): char
    requires RowsFit(a) && i < Known(a.path)
  {
    UsedGrows(a.path, i + 1, Known(a.path));
    if a.path[i] == Up then gap else a.target[a.targetStart + TargetUsed(a.path, i)]
  }

  /** `aligmentStr`: two rows of `pathLen` characters, filled column by
      column until a move that is none of the three stops it. `filled` is the
      number of columns written. */
  method AlignmentStr(a: Alignment, gap: char) returns (queryStr: array<char>, targetStr: array<char>, filled: nat)
    requires RowsFit(a)
    ensures fresh(queryStr) && fresh(targetStr)
    ensures queryStr.Length == targetStr.Length == |a.path|
    ensures filled == Known(a.path)
    ensures forall i :: 0 <= i < filled ==> queryStr[i] == QueryRowAt(a, i, gap) && targetStr[i] == TargetRowAt(a, i, gap)
  {
    var pathLen := |a.path|;
    var queryIdx, targetIdx := a.queryStart, a.targetStart;
    queryStr := new char[pathLen];
    targetStr := new char[pathLen];
    filled := 0;
    while filled < pathLen
      invariant filled <= Known(a.path)
      invariant queryIdx == a.queryStart + QueryUsed(a.path, filled)
      invariant targetIdx == a.targetStart + TargetUsed(a.path, filled)
      invariant forall i :: 0 <= i < filled ==> queryStr[i] == QueryRowAt(a, i, gap) && targetStr[i] == TargetRowAt(a, i, gap)
    {
      if a.path[filled] == Other {
        return;
      }
      var queryChr, targetChr;
      queryChr, targetChr, queryIdx, targetIdx := AlignmentColumn(a, filled, queryIdx, targetIdx, gap);
      queryStr[filled], targetStr[filled] := queryChr, targetChr;
      filled := filled + 1;
    }
  }

  /** One column of `aligmentStr`: the characters under the two cursors, or
      the gap character on the side the move skips, and the cursors moved past
      the residues taken. */
  method AlignmentColumn(a: Alignment, i: nat, queryIdx: int, targetIdx: int, gap: char)
    returns (queryChr: char, targetChr: char, nextQueryIdx: int, nextTargetIdx: int)
    requires RowsFit(a) && i < Known(a.path)
    requires queryIdx == a.queryStart + QueryUsed(a.path, i)
    requires targetIdx == a.targetStart + TargetUsed(a.path, i)
    ensures queryChr == QueryRowAt(a, i, gap) && targetChr == TargetRowAt(a, i, gap)
    ensures nextQueryIdx == a.queryStart + QueryUsed(a.path, i + 1)
    ensures nextTargetIdx == a.targetStart + TargetUsed(a.path, i + 1)
  {
    StatStep(a, i);
    match a.path[i] {
      case Left =>
        queryChr, targetChr := gap, a.target[targetIdx];
        nextQueryIdx, nextTargetIdx := queryIdx, targetIdx + 1;
      case Up =>
        queryChr, targetChr := a.query[queryIdx], gap;
        nextQueryIdx, nextTargetIdx := queryIdx + 1, targetIdx;
      case Diag =>
        queryChr, targetChr := a.query[queryIdx], a.target[targetIdx];
        nextQueryIdx, nextTargetIdx := queryIdx + 1, targetIdx + 1;
    }
  }

  /** With a gap character that is not a residue, a query column is a gap
      exactly for LEFT and a target column exactly for UP. */
  lemma GapColumns(a: Alignment, i: nat, gap: char)
    requires RowsFit(a) && i < Known(a.path)
    requires gap !in a.query && gap !in a.target
    ensures QueryRowAt(a, i, gap) == gap <==> a.path[i] == Left
    ensures TargetRowAt(a, i, gap) == gap <==> a.path[i] == Up
  {
    UsedGrows(a.path, i + 1, Known(a.path));
    if a.path[i] != Left {
      assert a.query[a.queryStart + QueryUsed(a.path, i)] in a.query;
    }
    if a.path[i] != Up {
      assert a.target[a.targetStart + TargetUsed(a.path, i)] in a.target;
    }
  }

  lemma SliceSnoc(s: seq<char>, lo: nat, hi: nat)
    requires lo <= hi < |s|
    ensures s[lo..hi] + [s[hi]] == s[lo..hi + 1]
  {
  }

  /** The query residues of the first `n` columns, gaps left out. */
  function QueryResidues(a: Alignment, n: nat, gap: char): seq<char>
    requires RowsFit(a) && n <= Known(a.path)
  {
    if n == 0 then []
    else QueryResidues(a, n - 1, gap) + (if a.path[n - 1] == Left then [] else [QueryRowAt(a, n - 1, gap)])
  }

  /** The query row, gaps left out, is the query from `queryStart` on, in
      order, one residue per UP or DIAG. */
  lemma {:induction false} QueryRowInOrder(a: Alignment, n: nat, gap: char)
    requires RowsFit(a) && n <= Known(a.path)
    ensures QueryUsed(a.path, n) <= |a.query| - a.queryStart
    ensures QueryResidues(a, n, gap) == a.query[a.queryStart..a.queryStart + QueryUsed(a.path, n)]
  {
    UsedGrows(a.path, n, Known(a.path));
    if n > 0 {
      QueryRowInOrder(a, n - 1, gap);
      QueryRowStep(a, n, gap);
    }
  }

  lemma QueryRowStep(a: Alignment, n: nat, gap: char)
    requires RowsFit(a) && 0 < n <= Known(a.path)
    requires QueryUsed(a.path, n) <= |a.query| - a.queryStart
    requires QueryResidues(a, n - 1, gap) == a.query[a.queryStart..a.queryStart + QueryUsed(a.path, n - 1)]
    ensures QueryResidues(a, n, gap) == a.query[a.queryStart..a.queryStart + QueryUsed(a.path, n)]
  {
    if a.path[n - 1] != Left {
      assert QueryUsed(a.path, n) == QueryUsed(a.path, n - 1) + 1;
      SliceSnoc(a.query, a.queryStart, a.queryStart + QueryUsed(a.path, n - 1));
    } else {
      assert QueryUsed(a.path, n) == QueryUsed(a.path, n - 1);
    }
  }

  /** The target residues of the first `n` columns, gaps left out. */
  function TargetResidues(a: Alignment, n: nat, gap: char): seq<char>
    requires RowsFit(a) && n <= Known(a.path)
  {
    if n == 0 then []
    else TargetResidues(a, n - 1, gap) + (if a.path[n - 1] == Up then [] else [TargetRowAt(a, n - 1, gap)])
  }

  /** The target row, gaps left out, is the target from `targetStart` on, in
      order, one residue per LEFT or DIAG. */
  lemma {:induction false} TargetRowInOrder(a: Alignment, n: nat, gap: char)
    requires RowsFit(a) && n <= Known(a.path)
    ensures TargetUsed(a.path, n) <= |a.target| - a.targetStart
    ensures TargetResidues(a, n, gap) == a.target[a.targetStart..a.targetStart + TargetUsed(a.path, n)]
  {
    UsedGrows(a.path, n, Known(a.path));
    if n > 0 {
      TargetRowInOrder(a, n - 1, gap);
      TargetRowStep(a, n, gap);
    }
  }

  lemma TargetRowStep(a: Alignment, n: nat, gap: char)
    requires RowsFit(a) && 0 < n <= Known(a.path)
    requires TargetUsed(a.path, n) <= |a.target| - a.targetStart
    requires TargetResidues(a, n - 1, gap) == a.target[a.targetStart..a.targetStart + TargetUsed(a.path, n - 1)]
    ensures TargetResidues(a, n, gap) == a.target[a.targetStart..a.targetStart + TargetUsed(a.path, n)]
  {
    if a.path[n - 1] != Up {
      assert TargetUsed(a.path, n) == TargetUsed(a.path, n - 1) + 1;
      SliceSnoc(a.target, a.targetStart, a.targetStart + TargetUsed(a.path, n - 1));
    } else {
      assert TargetUsed(a.path, n) == TargetUsed(a.path, n - 1);
    }
  }

  // ---------------------------------------------------------------------------
  // outputStat

  /** The counts `outputStat` prints. */
  datatype Stats = Stats(identity: nat, similarity: nat, gaps: nat)

  /** DIAG columns among the first `n` whose two residues are equal. */
  function Identity(a: Alignment, n: nat): (k: nat)
    requires RowsFit(a) && n <= Known(a.path)
    ensures k <= Count(a.path, n, Diag)
  {
    if n == 0 then 0
    else
    Identity(a, n - 1) + (if a.path[n - 1] == Diag && QueryRowAt(a, n - 1, '-') == TargetRowAt(a, n - 1, '-') then 1 else 0)
  }

  /** The counting loop of `outputStat`: DIAG columns count towards
      similarity, and towards identity when the residues agree; every other
      column counts as a gap. A move that is none of the three ends the
      function before anything is printed. */
  method OutputStatCounts(a: Alignment) returns (stats: Option<Stats>)
    requires RowsFit(a)
    ensures stats.None? <==> Other in a.path
    ensures stats.Some? ==> stats.value == Stats(Identity(a, |a.path|), Count(a.path, |a.path|, Diag), |a.path| - Count(a.path, |a.path|, Diag))
  {
    var pathLen := |a.path|;
    var identity, similarity, gaps := 0, 0, 0;
    var queryIdx, targetIdx := a.queryStart, a.targetStart;
    var i := 0;
    while i < pathLen
      invariant i <= Known(a.path)
      invariant queryIdx == a.queryStart + QueryUsed(a.path, i)
      invariant targetIdx == a.targetStart + TargetUsed(a.path, i)
      invariant identity == Identity(a, i) && similarity == Count(a.path, i, Diag) && gaps == i - similarity
    {
      var move := a.path[i];
      if i < Known(a.path) {
        StatStep(a, i);
      }
      if move == Diag {
        var queryChr := a.query[queryIdx];
        var targetChr := a.target[targetIdx];
        if queryChr == targetChr {
          identity := identity + 1;
        }
        similarity := similarity + 1;
      } else {
        gaps := gaps + 1;
      }
      match move {
        case Left =>
          targetIdx := targetIdx + 1;
        case Up =>
          queryIdx := queryIdx + 1;
        case Diag =>
          queryIdx, targetIdx := queryIdx + 1, targetIdx + 1;
        case Other =>
          return None;
      }
      i := i + 1;
    }
    stats := Some(Stats(identity, similarity, gaps));
  }

  /** What column `i` adds to the counts and to the residues used. */
  lemma StatStep(a: Alignment, i: nat)
    requires RowsFit(a) && i < Known(a.path)
    ensures a.queryStart + QueryUsed(a.path, i) < |a.query| || a.path[i] == Left
    ensures a.targetStart + TargetUsed(a.path, i) < |a.target| || a.path[i] == Up
    ensures QueryUsed(a.path, i + 1) == QueryUsed(a.path, i) + (if a.path[i] == Left then 0 else 1)
    ensures TargetUsed(a.path, i + 1) == TargetUsed(a.path, i) + (if a.path[i] == Up then 0 else 1)
    ensures Count(a.path, i + 1, Diag) == Count(a.path, i, Diag) + (if a.path[i] == Diag then 1 else 0)
    ensures Identity(a, i + 1) == Identity(a, i) +
      (if a.path[i] == Diag && a.query[a.queryStart + QueryUsed(a.path, i)] == a.target[a.targetStart + TargetUsed(a.path, i)] then 1 else 0)
  {
    UsedGrows(a.path, i + 1, Known(a.path));
  }

  /** Every move is one of the four kinds. */
  lemma {:induction false} CountAll(path: seq<Move>, n: nat)
    requires n <= |path|
    ensures Count(path, n, Left) + Count(path, n, Up) + Count(path, n, Diag) + Count(path, n, Other) == n
  {
    if n > 0 {
      CountAll(path, n - 1);
    }
  }

  /** A path without other moves has none counted. */
  lemma {:induction false} NoneCounted(path: seq<Move>, n: nat)
    requires n <= |path| && forall j :: 0 <= j < n ==> path[j] != Other
    ensures Count(path, n, Other) == 0
  {
    if n > 0 {
      NoneCounted(path, n - 1);
    }
  }

  /** The printed gap count is the number of LEFT and UP moves, and identity
      never exceeds similarity. */
  lemma StatsAddUp(a: Alignment)
    requires RowsFit(a) && Other !in a.path
    ensures var s := Stats(Identity(a, |a.path|), Count(a.path, |a.path|, Diag), |a.path| - Count(a.path, |a.path|, Diag));
      s.gaps == Count(a.path, |a.path|, Left) + Count(a.path, |a.path|, Up) && s.identity <= s.similarity
  {
    CountAll(a.path, |a.path|);
    NoneCounted(a.path, |a.path|);
  }

  // ---------------------------------------------------------------------------
  // outputDatabaseBlastM8

  /** How the M8 loop classifies a column: equal characters, the gap in the
      query row, the gap in the target row, or two different residues. */
  datatype Column = Same | QueryGap | TargetGap | Mismatch

  function ColumnAt(queryStr: string, targetStr: string, j: nat, gap: char): Column
    requires j < |queryStr| && j < |targetStr|
  {
    if queryStr[j] == targetStr[j] then Same
    else if queryStr[j] == gap then QueryGap
    else if targetStr[j] == gap then TargetGap
    else Mismatch
  }

  /** Columns of kind `c` among the first `n`. */
  function Columns(queryStr: string, targetStr: string, n: nat, gap: char, c: Column): (k: nat)
    requires n <= |queryStr| && n <= |targetStr|
    ensures k <= n
  {
    if n == 0 then 0
    else Columns(queryStr, targetStr, n - 1, gap, c) + (if ColumnAt(queryStr, targetStr, n - 1, gap) == c then 1 else 0)
  }

  /** Gap openings as BLAST counts them: gap columns that start a maximal run
      of gap columns on the same side. */
  function GapRuns(queryStr: string, targetStr: string, n: nat, gap: char): (k: nat)
    requires n <= |queryStr| && n <= |targetStr|
  {
    if n == 0 then 0
    else
      var c := ColumnAt(queryStr, targetStr, n - 1, gap);
      var opens := (c == QueryGap || c == TargetGap) && (n == 1 || ColumnAt(queryStr, targetStr, n - 2, gap) != c);
      GapRuns(queryStr, targetStr, n - 1, gap) + (if opens then 1 else 0)
  }

  /** The kind of the last column before `n` that is not a mismatch, or
      `Same` if there is none: what the two `gapOpened` flags remember. */
  function LastUnmismatched(queryStr: string, targetStr: string, n: nat, gap: char): Column
    requires n <= |queryStr| && n <= |targetStr|
  {
    if n == 0 then Same
    else if ColumnAt(queryStr, targetStr, n - 1, gap) == Mismatch then LastUnmismatched(queryStr, targetStr, n - 1, gap)
    else ColumnAt(queryStr, targetStr, n - 1, gap)
  }

  /** Gap openings as the M8 loop counts them: a gap column opens unless the
      last column before it that was not a mismatch had the gap on the same
      side. */
  function OpeningsAsWritten(queryStr: string, targetStr: string, n: nat, gap: char): nat
    requires n <= |queryStr| && n <= |targetStr|
  {
    if n == 0 then 0
    else
      var c := ColumnAt(queryStr, targetStr, n - 1, gap);
      var opens := (c == QueryGap || c == TargetGap) && LastUnmismatched(queryStr, targetStr, n - 1, gap) != c;
      OpeningsAsWritten(queryStr, targetStr, n - 1, gap) + (if opens then 1 else 0)
  }

  /** The counts the M8 line prints besides the fields it copies. */
  datatype M8Counts = M8Counts(identity: nat, mismatches: nat, gapOpenings: nat)

  /** The counting loop of `outputDatabaseBlastM8` as written: a mismatch
      column leaves both `gapOpened` flags as they were. */
  method BlastM8CountsAsWritten(queryStr: string, targetStr: string, gap: char) returns (counts: M8Counts)
    requires |queryStr| == |targetStr|
    ensures counts.identity == Columns(queryStr, targetStr, |queryStr|, gap, Same)
    ensures counts.mismatches == Columns(queryStr, targetStr, |queryStr|, gap, Mismatch)
    ensures counts.gapOpenings == OpeningsAsWritten(queryStr, targetStr, |queryStr|, gap)
  {
    var length := |queryStr|;
    var gapOpenings, identity, mismatches := 0, 0, 0;
    var gapOpenedQuery, gapOpenedTarget := false, false;
    for j := 0 to length
      invariant identity == Columns(queryStr, targetStr, j, gap, Same)
      invariant mismatches == Columns(queryStr, targetStr, j, gap, Mismatch)
      invariant gapOpenings == OpeningsAsWritten(queryStr, targetStr, j, gap)
      invariant gapOpenedQuery == (LastUnmismatched(queryStr, targetStr, j, gap) == QueryGap)
      invariant gapOpenedTarget == (LastUnmismatched(queryStr, targetStr, j, gap) == TargetGap)
    {
      if queryStr[j] == targetStr[j] {
        identity := identity + 1;
        gapOpenedQuery, gapOpenedTarget := false, false;
      } else if queryStr[j] == gap {
        if !gapOpenedQuery {
          gapOpenings := gapOpenings + 1;
        }
        gapOpenedQuery, gapOpenedTarget := true, false;
      } else if targetStr[j] == gap {
        if !gapOpenedTarget {
          gapOpenings := gapOpenings + 1;
        }
        gapOpenedQuery, gapOpenedTarget := false, true;
      } else if queryStr[j] != targetStr[j] {
        mismatches := mismatches + 1;
      }
    }
    counts := M8Counts(identity, mismatches, gapOpenings);
  }

  /** Rows "-A-" over "CTC": two query gaps separated by a mismatch are two
      gap openings, but the loop as written counts one. */
  lemma MismatchJoinsGapRuns()
    ensures OpeningsAsWritten("-A-", "CTC", 3, '-') == 1
    ensures GapRuns("-A-", "CTC", 3, '-') == 2
  {
    assert ColumnAt("-A-", "CTC", 0, '-') == QueryGap;
    assert ColumnAt("-A-", "CTC", 1, '-') == Mismatch;
    assert ColumnAt("-A-", "CTC", 2, '-') == QueryGap;
  }

  /** The counting loop of `outputDatabaseBlastM8` with a mismatch column
      closing any open gap, so that every maximal gap run opens once. */
  method BlastM8Counts(queryStr: string, targetStr: string, gap: char) returns (counts: M8Counts)
    requires |queryStr| == |targetStr|
    ensures counts.identity == Columns(queryStr, targetStr, |queryStr|, gap, Same)
    ensures counts.mismatches == Columns(queryStr, targetStr, |queryStr|, gap, Mismatch)
    ensures counts.gapOpenings == GapRuns(queryStr, targetStr, |queryStr|, gap)
  {
    var length := |queryStr|;
    var gapOpenings, identity, mismatches := 0, 0, 0;
    var gapOpenedQuery, gapOpenedTarget := false, false;
    for j := 0 to length
      invariant identity == Columns(queryStr, targetStr, j, gap, Same)
      invariant mismatches == Columns(queryStr, targetStr, j, gap, Mismatch)
      invariant gapOpenings == GapRuns(queryStr, targetStr, j, gap)
      invariant gapOpenedQuery == (j > 0 && ColumnAt(queryStr, targetStr, j - 1, gap) == QueryGap)
      invariant gapOpenedTarget == (j > 0 && ColumnAt(queryStr, targetStr, j - 1, gap) == TargetGap)
    {
      if queryStr[j] == targetStr[j] {
        identity := identity + 1;
        gapOpenedQuery, gapOpenedTarget := false, false;
      } else if queryStr[j] == gap {
        if !gapOpenedQuery {
          gapOpenings := gapOpenings + 1;
        }
        gapOpenedQuery, gapOpenedTarget := true, false;
      } else if targetStr[j] == gap {
        if !gapOpenedTarget {
          gapOpenings := gapOpenings + 1;
        }
        gapOpenedQuery, gapOpenedTarget := false, true;
      } else {
        mismatches := mismatches + 1;
        gapOpenedQuery, gapOpenedTarget := false, false;
      }
    }
    counts := M8Counts(identity, mismatches, gapOpenings);
  }

  /** Every column is an identity, a mismatch or a gap column. */
  lemma {:induction false} ColumnsAddUp(queryStr: string, targetStr: string, n: nat, gap: char)
    requires n <= |queryStr| && n <= |targetStr|
    ensures Columns(queryStr, targetStr, n, gap, Same) + Columns(queryStr, targetStr, n, gap, Mismatch)
          + Columns(queryStr, targetStr, n, gap, QueryGap) + Columns(queryStr, targetStr, n, gap, TargetGap) == n
  {
    if n > 0 {
      ColumnsAddUp(queryStr, targetStr, n - 1, gap);
    }
  }

  /** There are never more gap openings than gap columns. */
  lemma {:induction false} RunsAtMostGaps(queryStr: string, targetStr: string, n: nat, gap: char)
    requires n <= |queryStr| && n <= |targetStr|
    ensures GapRuns(queryStr, targetStr, n, gap)
         <= Columns(queryStr, targetStr, n, gap, QueryGap) + Columns(queryStr, targetStr, n, gap, TargetGap)
  {
    if n > 0 {
      RunsAtMostGaps(queryStr, targetStr, n - 1, gap);
    }
  }
}
