/** The computer player's minimax search (`Player.getBestMove`).

    The score a call at depth > 0 returns is specified by the pure
    recursive function `Value`; the root's choice by `Buckets` and
    `RootChoice`. The class `Player` at the end holds the search itself,
    with the tie-break map it updates in place, and is proved to compute
    exactly these functions. */
module Player {
  import opened Board

  /** The mark the side to move places: 'x' when maximizing, 'o' otherwise. */
  function Mover(maximizing: bool): Cell {
    if maximizing then X else O
  }

  /** The initial running best: -100 when maximizing, 100 when minimizing. */
  function Sentinel(maximizing: bool): int {
    if maximizing then -100 else 100
  }

  /** `Math.max` when maximizing, `Math.min` when minimizing. */
  function Combine(maximizing: bool, best: int, v: int): int {
    if maximizing then (if best < v then v else best)
    else (if v < best then v else best)
  }

  /** `v` is no better for the side to move than `best`. */
  predicate NoBetter(maximizing: bool, v: int, best: int) {
    if maximizing then v <= best else best <= v
  }

  /** The heuristic value of a position the search stops at. */
  function TerminalScore(st: Status, depth: nat): int {
    match st
    case XWins => 100 - depth
    case OWins => -100 + depth
    case _ => 0
  }

  /** The score a call on board `s` at ply `depth` returns when it is not
      the root: the terminal/cutoff score, or the best of the children's
      scores, visited in the order of the available moves. */
  function Value(s: State, maximizing: bool, depth: nat, maxDepth: int): int
    requires WellFormed(s)
    decreases EmptyCount(s), 2, 0
  {
    var st := StatusOf(s);
    if st != Ongoing || depth == maxDepth then TerminalScore(st, depth)
    else Fold(maximizing, ChildValues(s, maximizing, depth, maxDepth, AvailableMoves(s)))
  }

  /** The score of the child reached by the side to move placing its mark
      at `m`: the other side moves next, one ply deeper. */
  function ChildValue(s: State, maximizing: bool, depth: nat, maxDepth: int, m: nat): int
    requires WellFormed(s) && m < |s| && s[m] == Empty
    decreases EmptyCount(s), 0, 0
  {
    Value(Insert(s, Mover(maximizing), m), !maximizing, depth + 1, maxDepth)
  }

  /** The children's scores, one per move, in the order of `moves`. */
  function ChildValues(s: State, maximizing: bool, depth: nat, maxDepth: int, moves: seq<nat>): (vs: seq<int>)
    requires WellFormed(s) && AllOpen(s, moves)
    ensures |vs| == |moves|
    decreases EmptyCount(s), 1, |moves|
  {
    if moves == [] then []
    else
      ChildValues(s, maximizing, depth, maxDepth, moves[..|moves| - 1])
        + [ChildValue(s, maximizing, depth, maxDepth, moves[|moves| - 1])]
  }

  /** Entry `k` of the children's scores is the score of the child for
      `moves[k]`. */
  lemma {:induction false} ChildValuesAt(s: State, maximizing: bool, depth: nat, maxDepth: int, moves: seq<nat>, k: nat)
    requires WellFormed(s) && AllOpen(s, moves) && k < |moves|
    ensures ChildValues(s, maximizing, depth, maxDepth, moves)[k] == ChildValue(s, maximizing, depth, maxDepth, moves[k])
    decreases |moves|
  {
    var prefix := moves[..|moves| - 1];
    if k < |prefix| {
      ChildValuesAt(s, maximizing, depth, maxDepth, prefix, k);
    }
  }

  /** The running best after the loop has seen `vs` in order, starting
      from the sentinel. */
  function Fold(maximizing: bool, vs: seq<int>): int {
    if vs == [] then Sentinel(maximizing)
    else Combine(maximizing, Fold(maximizing, vs[..|vs| - 1]), vs[|vs| - 1])
  }

  /** The running best is at least as good as the sentinel and every value
      seen, and it is the sentinel or one of those values. */
  lemma {:induction false} FoldIsExtreme(maximizing: bool, vs: seq<int>)
    ensures NoBetter(maximizing, Sentinel(maximizing), Fold(maximizing, vs))
    ensures forall k :: 0 <= k < |vs| ==> NoBetter(maximizing, vs[k], Fold(maximizing, vs))
    ensures Fold(maximizing, vs) == Sentinel(maximizing) || Fold(maximizing, vs) in vs
  {
    if vs != [] {
      var prefix := vs[..|vs| - 1];
      FoldIsExtreme(maximizing, prefix);
      assert forall k :: 0 <= k < |prefix| ==> prefix[k] == vs[k];
      assert vs == prefix + [vs[|vs| - 1]];
    }
  }

  /** When every value seen lies strictly inside (-100, 100) the sentinel
      is beaten and the running best is one of the values seen. */
  lemma FoldAttained(maximizing: bool, vs: seq<int>, lo: int, hi: int)
    requires vs != [] && -100 < lo && hi < 100
    requires forall k :: 0 <= k < |vs| ==> lo <= vs[k] <= hi
    ensures Fold(maximizing, vs) in vs && lo <= Fold(maximizing, vs) <= hi
  {
    FoldIsExtreme(maximizing, vs);
    assert NoBetter(maximizing, vs[0], Fold(maximizing, vs));
  }

  // ---------------------------------------------------------------------
  // Scoring of positions where the search stops

  /** A finished board scores 100 - depth for an X win, -100 + depth for an
      O win and 0 for a draw; an unfinished board at the depth limit
      scores 0. */
  lemma StopScores(s: State, maximizing: bool, depth: nat, maxDepth: int)
    requires WellFormed(s)
    ensures StatusOf(s) == XWins ==> Value(s, maximizing, depth, maxDepth) == 100 - depth
    ensures StatusOf(s) == OWins ==> Value(s, maximizing, depth, maxDepth) == -100 + depth
    ensures StatusOf(s) == Draw ==> Value(s, maximizing, depth, maxDepth) == 0
    ensures StatusOf(s) == Ongoing && depth == maxDepth ==> Value(s, maximizing, depth, maxDepth) == 0
  {
  }

  /** Among wins a shallower one scores strictly higher; among losses a
      deeper one scores strictly higher. */
  lemma FasterWinsScoreHigher(s: State, m1: bool, m2: bool, d1: nat, d2: nat, k1: int, k2: int)
    requires WellFormed(s) && d1 < d2
    ensures StatusOf(s) == XWins ==> Value(s, m1, d1, k1) > Value(s, m2, d2, k2)
    ensures StatusOf(s) == OWins ==> Value(s, m1, d1, k1) < Value(s, m2, d2, k2)
  {
  }

  // ---------------------------------------------------------------------
  // Score bounds

  /** Every score at ply `depth` lies in [-100 + depth, 100 - depth]; in
      particular the root's lies in [-100, 100], and a child of the root's
      lies strictly inside it. */
  lemma {:induction false} ScoreWindow(s: State, maximizing: bool, depth: nat, maxDepth: int)
    requires WellFormed(s) && depth + EmptyCount(s) <= 100
    ensures -100 + depth <= Value(s, maximizing, depth, maxDepth) <= 100 - depth
    decreases EmptyCount(s), 1
  {
    if StatusOf(s) == Ongoing && depth != maxDepth {
      var moves := AvailableMoves(s);
      var vs := ChildValues(s, maximizing, depth, maxDepth, moves);
      assert vs != [] by { OngoingHasMoves(s); }
      forall k | 0 <= k < |vs|
        ensures -99 + depth <= vs[k] <= 99 - depth
      {
        ChildWindow(s, maximizing, depth, maxDepth, moves, k);
      }
      FoldAttained(maximizing, vs, -99 + depth, 99 - depth);
    }
  }

  /** Each child's score lies in the window of the next ply. */
  lemma {:induction false} ChildWindow(s: State, maximizing: bool, depth: nat, maxDepth: int, moves: seq<nat>, k: nat)
    requires WellFormed(s) && AllOpen(s, moves) && k < |moves|
    requires depth + EmptyCount(s) <= 100
    ensures -99 + depth <= ChildValues(s, maximizing, depth, maxDepth, moves)[k] <= 99 - depth
    decreases EmptyCount(s), 0
  {
    ScoreWindow(Insert(s, Mover(maximizing), moves[k]), !maximizing, depth + 1, maxDepth);
    ChildValuesAt(s, maximizing, depth, maxDepth, moves, k);
  }

  // ---------------------------------------------------------------------
  // Max/min over the children

  /** An unfinished position above the depth limit scores the maximum
      (X to move) or the minimum (O to move) over its children, where each
      child places the mover's mark on one empty cell and hands the move to
      the other side one ply deeper. The extreme is always attained by a
      child: the sentinel -100 / 100 never survives. */
  lemma MaxMinOverChildren(s: State, maximizing: bool, depth: nat, maxDepth: int)
    requires WellFormed(s) && StatusOf(s) == Ongoing && depth != maxDepth
    requires depth + EmptyCount(s) <= 100
    ensures forall m :: m in AvailableMoves(s) ==>
              NoBetter(maximizing, Value(Insert(s, Mover(maximizing), m), !maximizing, depth + 1, maxDepth),
                       Value(s, maximizing, depth, maxDepth))
    ensures exists m :: m in AvailableMoves(s) &&
              Value(s, maximizing, depth, maxDepth) == Value(Insert(s, Mover(maximizing), m), !maximizing, depth + 1, maxDepth)
  {
    var moves := AvailableMoves(s);
    var vs := ChildValues(s, maximizing, depth, maxDepth, moves);
    var best := Value(s, maximizing, depth, maxDepth);
    assert best == Fold(maximizing, vs);
    FoldIsExtreme(maximizing, vs);
    forall m | m in moves
      ensures NoBetter(maximizing, ChildValue(s, maximizing, depth, maxDepth, m), best)
    {
      var k :| 0 <= k < |moves| && moves[k] == m;
      ChildValuesAt(s, maximizing, depth, maxDepth, moves, k);
    }
    assert vs != [] by { OngoingHasMoves(s); }
    forall k | 0 <= k < |vs|
      ensures -99 + depth <= vs[k] <= 99 - depth
    {
      ChildWindow(s, maximizing, depth, maxDepth, moves, k);
    }
    FoldAttained(maximizing, vs, -99 + depth, 99 - depth);
    var k :| 0 <= k < |vs| && vs[k] == best;
    ChildValuesAt(s, maximizing, depth, maxDepth, moves, k);
    assert moves[k] in moves;
  }

  // ---------------------------------------------------------------------
  // The depth limit

  /** A depth limit the search can never reach changes no score: in
      particular the default limit -1, which no ply reaches. */
  lemma {:induction false} UnreachableLimitIsInert(s: State, maximizing: bool, depth: nat, maxDepth: int)
    requires WellFormed(s)
    requires maxDepth < depth || depth + EmptyCount(s) <= maxDepth
    ensures Value(s, maximizing, depth, maxDepth) == Value(s, maximizing, depth, -1)
    decreases EmptyCount(s), 1
  {
    if StatusOf(s) == Ongoing {
      OngoingHasMoves(s);
      var moves := AvailableMoves(s);
      var vs := ChildValues(s, maximizing, depth, maxDepth, moves);
      var ws := ChildValues(s, maximizing, depth, -1, moves);
      forall k | 0 <= k < |moves|
        ensures vs[k] == ws[k]
      {
        ChildInert(s, maximizing, depth, maxDepth, moves, k);
      }
      assert vs == ws;
    }
  }

  lemma {:induction false} ChildInert(s: State, maximizing: bool, depth: nat, maxDepth: int, moves: seq<nat>, k: nat)
    requires WellFormed(s) && AllOpen(s, moves) && k < |moves|
    requires maxDepth < depth || depth + EmptyCount(s) <= maxDepth
    ensures ChildValues(s, maximizing, depth, maxDepth, moves)[k] == ChildValues(s, maximizing, depth, -1, moves)[k]
    decreases EmptyCount(s), 0
  {
    UnreachableLimitIsInert(Insert(s, Mover(maximizing), moves[k]), !maximizing, depth + 1, maxDepth);
    ChildValuesAt(s, maximizing, depth, maxDepth, moves, k);
    ChildValuesAt(s, maximizing, depth, -1, moves, k);
  }

  // ---------------------------------------------------------------------
  // Root selection

  /** `nodes_map` after the root's loop has seen the moves `moves` with
      child scores `vs`: each score maps to the moves achieving it, in the
      order seen. */
  function Buckets(moves: seq<nat>, vs: seq<int>): map<int, seq<nat>>
    requires |moves| == |vs|
  {
    if moves == [] then map[]
    else
      var prev := Buckets(moves[..|moves| - 1], vs[..|vs| - 1]);
      var v, last := vs[|vs| - 1], moves[|moves| - 1];
      prev[v := if v in prev then prev[v] + [last] else [last]]
  }

  /** The moves whose score is `v`, in the order seen. */
  function Achieving(moves: seq<nat>, vs: seq<int>, v: int): (r: seq<nat>)
    requires |moves| == |vs|
    ensures forall m :: m in r ==> exists k :: 0 <= k < |moves| && moves[k] == m && vs[k] == v
    ensures forall k :: 0 <= k < |moves| && vs[k] == v ==> moves[k] in r
    ensures Increasing(moves) ==> Increasing(r) && (r != [] ==> moves != [] && r[|r| - 1] <= moves[|moves| - 1])
  {
    if moves == [] then []
    else
      var prefix := moves[..|moves| - 1];
      var r0 := Achieving(prefix, vs[..|vs| - 1], v);
      assert forall k :: 0 <= k < |prefix| ==> prefix[k] == moves[k];
      r0 + (if vs[|vs| - 1] == v then [moves[|moves| - 1]] else [])
  }

  /** The tie-break map holds a key exactly for the scores some move
      achieved, and under it exactly the moves achieving it, in order. */
  lemma {:induction false} BucketsCollectAchievers(moves: seq<nat>, vs: seq<int>)
    requires |moves| == |vs|
    ensures forall v :: v in Buckets(moves, vs) <==> Achieving(moves, vs, v) != []
    ensures forall v :: v in Buckets(moves, vs) ==> Buckets(moves, vs)[v] == Achieving(moves, vs, v)
  {
    if moves != [] {
      BucketsCollectAchievers(moves[..|moves| - 1], vs[..|vs| - 1]);
    }
  }

  /** The tie-break map the root builds for board `s`. */
  function RootBuckets(s: State, maximizing: bool, maxDepth: int): map<int, seq<nat>>
    requires WellFormed(s)
  {
    var moves := AvailableMoves(s);
    Buckets(moves, ChildValues(s, maximizing, 0, maxDepth, moves))
  }

  /** At an unfinished root the bucket of the best score is non-empty and
      holds exactly the moves whose child scores best, in ascending order;
      no move's child scores better. */
  lemma RootBucketIsOptimal(s: State, maximizing: bool, maxDepth: int)
    requires WellFormed(s) && StatusOf(s) == Ongoing && maxDepth != 0
    ensures Value(s, maximizing, 0, maxDepth) in RootBuckets(s, maximizing, maxDepth)
    ensures var bucket := RootBuckets(s, maximizing, maxDepth)[Value(s, maximizing, 0, maxDepth)];
            && bucket != [] && Increasing(bucket)
            && forall m :: m in bucket <==>
                 m in AvailableMoves(s) && ChildValue(s, maximizing, 0, maxDepth, m) == Value(s, maximizing, 0, maxDepth)
    ensures forall m :: m in AvailableMoves(s) ==>
              NoBetter(maximizing, ChildValue(s, maximizing, 0, maxDepth, m), Value(s, maximizing, 0, maxDepth))
  {
    var moves := AvailableMoves(s);
    var vs := ChildValues(s, maximizing, 0, maxDepth, moves);
    var best := Value(s, maximizing, 0, maxDepth);
    assert best == Fold(maximizing, vs);
    EmptyCountAtMostLength(s);
    assert vs != [] by { OngoingHasMoves(s); }
    forall k | 0 <= k < |vs|
      ensures -99 <= vs[k] <= 99
    {
      ChildWindow(s, maximizing, 0, maxDepth, moves, k);
    }
    FoldAttained(maximizing, vs, -99, 99);
    FoldIsExtreme(maximizing, vs);
    BucketsCollectAchievers(moves, vs);
    var bucket := Achieving(moves, vs, best);
    var kb :| 0 <= kb < |vs| && vs[kb] == best;
    assert moves[kb] in bucket;
    forall m | m in bucket
      ensures m in moves && ChildValue(s, maximizing, 0, maxDepth, m) == best
    {
      var k :| 0 <= k < |moves| && moves[k] == m && vs[k] == best;
      ChildValuesAt(s, maximizing, 0, maxDepth, moves, k);
    }
    forall m | m in moves
      ensures NoBetter(maximizing, ChildValue(s, maximizing, 0, maxDepth, m), best)
      ensures ChildValue(s, maximizing, 0, maxDepth, m) == best ==> m in bucket
    {
      var k :| 0 <= k < |moves| && moves[k] == m;
      ChildValuesAt(s, maximizing, 0, maxDepth, moves, k);
    }
  }

  /** `Math.floor(rnd * n)` with `Math.random()` supplying `rnd`. */
  function PickIndex(rnd: real, n: nat): (k: nat)
    requires 0.0 <= rnd < 1.0 && n > 0
    ensures k < n
  {
    assert rnd * (n as real) < n as real;
    (rnd * (n as real)).Floor
  }

  /** Dividing by a positive `n` and comparing is comparing after
      multiplying by `n`. */
  lemma ScaleByPositive(a: real, r: real, n: real)
    requires n > 0.0
    ensures a / n <= r <==> a <= r * n
    ensures r < a / n <==> r * n < a
  {
    assert (a / n) * n == a;
    if a / n <= r {
      assert (a / n) * n <= r * n;
    }
    if a <= r * n {
      assert (a / n) * n <= r * n;
    }
    if r < a / n {
      assert r * n < (a / n) * n;
    }
    if r * n < a {
      assert r * n < (a / n) * n;
    }
  }

  /** Each of the `n` indices is drawn for a sub-interval of [0, 1) of
      width 1 / n, so a uniform `rnd` draws them uniformly. */
  lemma PickIndexUniform(rnd: real, n: nat, j: nat)
    requires 0.0 <= rnd < 1.0 && j < n
    ensures PickIndex(rnd, n) == j <==>
              (j as real) / (n as real) <= rnd < ((j + 1) as real) / (n as real)
  {
    ScaleByPositive(j as real, rnd, n as real);
    ScaleByPositive((j + 1) as real, rnd, n as real);
  }

  /** The entry the root takes from a bucket: the only one, or the one at
      the drawn index when there are several. */
  function Select(bucket: seq<nat>, rnd: real): (m: nat)
    requires bucket != [] && 0.0 <= rnd < 1.0
    ensures m in bucket
  {
    if |bucket| > 1 then bucket[PickIndex(rnd, |bucket|)] else bucket[0]
  }

  /** Every entry of a bucket is selected for some draw. */
  lemma SelectReachesEveryEntry(bucket: seq<nat>, m: nat)
    requires m in bucket
    ensures exists rnd :: 0.0 <= rnd < 1.0 && Select(bucket, rnd) == m
  {
    var j :| 0 <= j < |bucket| && bucket[j] == m;
    var n := |bucket|;
    if n > 1 {
      var rnd := (j as real) / (n as real);
      ScaleByPositive(j as real, rnd, n as real);
      ScaleByPositive(j as real, 1.0, n as real);
      ScaleByPositive((j + 1) as real, rnd, n as real);
      PickIndexUniform(rnd, n, j);
      assert Select(bucket, rnd) == m;
    } else {
      assert Select(bucket, 0.0) == m;
    }
  }

  /** The move the root returns for the draw `rnd`: an available move
      whose child scores the root's best score, and no move scores better. */
  function RootChoice(s: State, maximizing: bool, maxDepth: int, rnd: real): (m: nat)
    requires WellFormed(s) && StatusOf(s) == Ongoing && maxDepth != 0
    requires 0.0 <= rnd < 1.0
    ensures m in AvailableMoves(s)
    ensures ChildValue(s, maximizing, 0, maxDepth, m) == Value(s, maximizing, 0, maxDepth)
    ensures forall m' :: m' in AvailableMoves(s) ==>
              NoBetter(maximizing, ChildValue(s, maximizing, 0, maxDepth, m'), ChildValue(s, maximizing, 0, maxDepth, m))
  {
    RootBucketIsOptimal(s, maximizing, maxDepth);
    Select(RootBuckets(s, maximizing, maxDepth)[Value(s, maximizing, 0, maxDepth)], rnd)
  }

  /** Every move tied for the best score is returned for some draw: the
      tie-break never excludes an optimal move. */
  lemma TieBreakReachesEveryOptimalMove(s: State, maximizing: bool, maxDepth: int, m: nat)
    requires WellFormed(s) && StatusOf(s) == Ongoing && maxDepth != 0
    requires m in AvailableMoves(s) && ChildValue(s, maximizing, 0, maxDepth, m) == Value(s, maximizing, 0, maxDepth)
    ensures exists rnd :: 0.0 <= rnd < 1.0 && RootChoice(s, maximizing, maxDepth, rnd) == m
  {
    RootBucketIsOptimal(s, maximizing, maxDepth);
    var bucket := RootBuckets(s, maximizing, maxDepth)[Value(s, maximizing, 0, maxDepth)];
    SelectReachesEveryEntry(bucket, m);
    var rnd :| 0.0 <= rnd < 1.0 && Select(bucket, rnd) == m;
    assert RootChoice(s, maximizing, maxDepth, rnd) == m;
  }

  /** A child of the root scores the top value 99 (X to move) or -99 (O to
      move) only if the mover has just completed a line. */
  lemma TopChildScoreIsImmediateWin(s: State, maximizing: bool, maxDepth: int, m: nat)
    requires WellFormed(s) && m < |s| && s[m] == Empty
    requires ChildValue(s, maximizing, 0, maxDepth, m) == (if maximizing then 99 else -99)
    ensures StatusOf(Insert(s, Mover(maximizing), m)) == (if maximizing then XWins else OWins)
  {
    var t := Insert(s, Mover(maximizing), m);
    EmptyCountAtMostLength(t);
    if StatusOf(t) == Ongoing && 1 != maxDepth {
      MaxMinOverChildren(t, !maximizing, 1, maxDepth);
      var g :| g in AvailableMoves(t) &&
                 Value(t, !maximizing, 1, maxDepth) == Value(Insert(t, Mover(!maximizing), g), maximizing, 2, maxDepth);
      ScoreWindow(Insert(t, Mover(!maximizing), g), maximizing, 2, maxDepth);
      assert false;
    }
  }

  /** When the side to move can complete a line at once, the root plays a
      move that completes a line. */
  lemma ImmediateWinIsPlayed(s: State, maximizing: bool, maxDepth: int, rnd: real, w: nat)
    requires WellFormed(s) && StatusOf(s) == Ongoing && maxDepth != 0
    requires 0.0 <= rnd < 1.0
    requires w in AvailableMoves(s)
    requires StatusOf(Insert(s, Mover(maximizing), w)) == (if maximizing then XWins else OWins)
    ensures var m := RootChoice(s, maximizing, maxDepth, rnd);
            StatusOf(Insert(s, Mover(maximizing), m)) == (if maximizing then XWins else OWins)
  {
    var m := RootChoice(s, maximizing, maxDepth, rnd);
    var top := if maximizing then 99 else -99;
    assert ChildValue(s, maximizing, 0, maxDepth, w) == top by {
      StopScores(Insert(s, Mover(maximizing), w), !maximizing, 1, maxDepth);
    }
    var t := Insert(s, Mover(maximizing), m);
    EmptyCountAtMostLength(t);
    ScoreWindow(t, !maximizing, 1, maxDepth);
    assert ChildValue(s, maximizing, 0, maxDepth, m) == top;
    TopChildScoreIsImmediateWin(s, maximizing, maxDepth, m);
  }

  // ---------------------------------------------------------------------
  // The player object

  /** The computer player. `maxDepth` limits the search (the default -1
      sets no limit); `nodesMap` is the tie-break map the last root call
      built; `callbackLog` records every value passed to `callback`. */
  class Player {
    const maxDepth: int
    var nodesMap: map<int, seq<nat>>
    ghost var callbackLog: seq<int>

    constructor (maxDepth: int := -1)
      ensures this.maxDepth == maxDepth && nodesMap == map[] && callbackLog == []
    {
      this.maxDepth := maxDepth;
      nodesMap := map[];
      callbackLog := [];
    }

    /** `getBestMove`. A call at depth > 0 returns the position's score and
        touches neither the tie-break map nor the callback. The root call
        (depth 0) clears the map; on an unfinished board above the depth
        limit it fills the map with the children's scores, returns a move
        from the best score's bucket and passes that move to the callback
        once. As in the source, X moves and the call is the root unless the
        caller says otherwise. `rnd` stands for the value `Math.random()`
        returns; the callback is the ghost `callbackLog`. The two
        branches of the source differ only in the mark placed, the sentinel
        and `Math.max` versus `Math.min`, so they share one loop here. */
    method GetBestMove(board: State, rnd: real, maximizing: bool := true, depth: nat := 0) returns (r: int)
      requires WellFormed(board) && 0.0 <= rnd < 1.0
      modifies this
      decreases EmptyCount(board), 2
      ensures depth > 0 ==>
                && r == Value(board, maximizing, depth, maxDepth)
                && nodesMap == old(nodesMap) && callbackLog == old(callbackLog)
      ensures depth == 0 && (StatusOf(board) != Ongoing || maxDepth == 0) ==>
                && r == Value(board, maximizing, 0, maxDepth)
                && nodesMap == map[] && callbackLog == old(callbackLog)
      ensures depth == 0 && StatusOf(board) == Ongoing && maxDepth != 0 ==>
                && nodesMap == RootBuckets(board, maximizing, maxDepth)
                && r == RootChoice(board, maximizing, maxDepth, rnd)
                && callbackLog == old(callbackLog) + [r]
    {
      if depth == 0 {
        nodesMap := map[];
      }
      var st := StatusOf(board);
      if st != Ongoing || depth == maxDepth {
        if st == XWins {
          return 100 - depth;
        } else if st == OWins {
          return -100 + depth;
        }
        return 0;
      }
      var moves := AvailableMoves(board);
      var best := ScoreChildren(board, maximizing, rnd, depth, moves);
      if depth == 0 {
        RootBucketIsOptimal(board, maximizing, maxDepth);
        var bucket := nodesMap[best];
        var ret;
        if |bucket| > 1 {
          var rand := PickIndex(rnd, |bucket|);
          ret := bucket[rand];
        } else {
          ret := bucket[0];
        }
        callbackLog := callbackLog + [ret];
        return ret;
      }
      return best;
    }

    /** One turn of that loop before the running best moves: a copy of the
        board gets the mover's mark in cell `index`, and the copy is searched
        one level deeper for the other player. */
    method ScoreChild(board: State, maximizing: bool, rnd: real, depth: nat, index: nat) returns (v: int)
      requires WellFormed(board) && 0.0 <= rnd < 1.0
      requires index < |board| && board[index] == Empty
      modifies this
      decreases EmptyCount(board), 0
      ensures v == ChildValue(board, maximizing, depth, maxDepth, index)
      ensures nodesMap == old(nodesMap) && callbackLog == old(callbackLog)
    {
      var child := Insert(board, Mover(maximizing), index);
      v := GetBestMove(child, rnd, !maximizing, depth + 1);
    }

    /** The loop of `getBestMove` over `moves`, the available moves of an
        unfinished board above the depth limit: each child is searched one
        level deeper with the other mark, the running best starts at the
        sentinel and moves by max (or min), and at the root each child's
        score files the move under that score in the tie-break map, in move
        order. */
    method ScoreChildren(board: State, maximizing: bool, rnd: real, depth: nat, moves: seq<nat>) returns (best: int)
      requires WellFormed(board) && 0.0 <= rnd < 1.0 && AllOpen(board, moves)
      requires depth == 0 ==> nodesMap == map[]
      modifies this
      decreases EmptyCount(board), 1
      ensures best == Fold(maximizing, ChildValues(board, maximizing, depth, maxDepth, moves))
      ensures depth == 0 ==> nodesMap == Buckets(moves, ChildValues(board, maximizing, depth, maxDepth, moves))
      ensures depth > 0 ==> nodesMap == old(nodesMap)
      ensures callbackLog == old(callbackLog)
    {
      ghost var scores := ChildValues(board, maximizing, depth, maxDepth, moves);
      ghost var seen: seq<int> := [];
      best := Sentinel(maximizing);
      var i := 0;
      while i < |moves|
        invariant 0 <= i <= |moves| && seen == scores[..i]
        invariant best == Fold(maximizing, seen)
        invariant depth == 0 ==> nodesMap == Buckets(moves[..i], seen)
        invariant depth > 0 ==> nodesMap == old(nodesMap)
        invariant callbackLog == old(callbackLog)
      {
        var index := moves[i];
        var nodeValue := ScoreChild(board, maximizing, rnd, depth, index);
        assert nodeValue == scores[i] by {
          ChildValuesAt(board, maximizing, depth, maxDepth, moves, i);
        }
        assert scores[..i + 1] == seen + [nodeValue] by {
          PrefixGrows(scores, i);
        }
        assert Combine(maximizing, best, nodeValue) == Fold(maximizing, seen + [nodeValue]) by {
          FoldStep(maximizing, seen, nodeValue);
        }
        best := Combine(maximizing, best, nodeValue);
        if depth == 0 {
          var moves' := if nodeValue in nodesMap then nodesMap[nodeValue] + [index] else [index];
          assert nodesMap[nodeValue := moves'] == Buckets(moves[..i + 1], seen + [nodeValue]) by {
            BucketStep(moves, i, seen, nodeValue, nodesMap);
          }
          nodesMap := nodesMap[nodeValue := moves'];
        }
        seen := seen + [nodeValue];
        i := i + 1;
      }
      assert scores[..|moves|] == scores;
      assert moves[..|moves|] == moves;
    }
  }

  /** Taking one element more extends a prefix by that element. */
  lemma PrefixGrows<T>(xs: seq<T>, i: nat)
    requires i < |xs|
    ensures xs[..i + 1] == xs[..i] + [xs[i]]
  {
  }

  /** One more value seen moves the running best by max (or min). */
  lemma FoldStep(maximizing: bool, seen: seq<int>, v: int)
    ensures Fold(maximizing, seen + [v]) == Combine(maximizing, Fold(maximizing, seen), v)
  {
    assert (seen + [v])[..|seen|] == seen;
  }

  /** Filing one more move under its score extends the tie-break map the
      way `Buckets` does for the longer lists. */
  lemma BucketStep(moves: seq<nat>, i: nat, seen: seq<int>, v: int, m: map<int, seq<nat>>)
    requires i < |moves| && |seen| == i
    requires m == Buckets(moves[..i], seen)
    ensures m[v := if v in m then m[v] + [moves[i]] else [moves[i]]] == Buckets(moves[..i + 1], seen + [v])
  {
    assert moves[..i + 1][..i] == moves[..i];
    assert (seen + [v])[..|seen|] == seen;
  }
}
