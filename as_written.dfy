/** `getBestMove` as the source spells its recursive calls: both pass two
    extra arguments, `alpha` and `beta`, that are declared nowhere. Reading
    an undeclared name throws a `ReferenceError`, and arguments are
    evaluated before the call is made, so the first child visited aborts
    the whole search. The rest of the
    model (`Player.Value`, `Player.Player.GetBestMove`) follows the evident
    intent: the same recursion without those two arguments. */
module AsWritten {
  import opened Board
  import opened Player

  /** What a call does: return a value, or throw. */
  datatype Outcome = Returned(value: int) | Thrown(error: string)

  const UndeclaredAlpha: string := "ReferenceError: alpha is not defined"

  /** A call as written. Where the search stops it returns the same score
      as the intended version. Otherwise the loop's first iteration builds
      the child and then evaluates the call's arguments, the first
      undeclared one being `alpha`. A loop over no moves would return the
      sentinel, but an unfinished board always has a move. */
  function GetBestMoveAsWritten(s: State, maximizing: bool, depth: nat, maxDepth: int): (o: Outcome)
    requires WellFormed(s)
  {
    var st := StatusOf(s);
    if st != Ongoing || depth == maxDepth then Returned(TerminalScore(st, depth))
    else if AvailableMoves(s) == [] then Returned(Sentinel(maximizing))
    else Thrown(UndeclaredAlpha)
  }

  /** As written, a call throws exactly when the search would have to look
      at a child: on every unfinished board above the depth limit, whatever
      the depth. Where it returns, it returns the intended score. */
  lemma AsWrittenThrowsWheneverItSearches(s: State, maximizing: bool, depth: nat, maxDepth: int)
    requires WellFormed(s)
    ensures GetBestMoveAsWritten(s, maximizing, depth, maxDepth).Thrown? <==>
              StatusOf(s) == Ongoing && depth != maxDepth
    ensures GetBestMoveAsWritten(s, maximizing, depth, maxDepth).Returned? ==>
              GetBestMoveAsWritten(s, maximizing, depth, maxDepth).value == Value(s, maximizing, depth, maxDepth)
  {
    OngoingHasMoves(s);
  }

  /** The opening position: nine empty cells. */
  const EmptyBoard: State := [Empty, Empty, Empty, Empty, Empty, Empty, Empty, Empty, Empty]

  /** A concrete input: asking for X's first move on the empty board with
      the default depth limit throws instead of returning a move, and the
      callback is never reached. The intended search returns an available
      move whose child scores best, drawn from that score's bucket. */
  lemma FirstMoveThrows(rnd: real)
    requires 0.0 <= rnd < 1.0
    ensures GetBestMoveAsWritten(EmptyBoard, true, 0, -1) == Thrown(UndeclaredAlpha)
    ensures var m := RootChoice(EmptyBoard, true, -1, rnd);
            m in AvailableMoves(EmptyBoard) &&
            ChildValue(EmptyBoard, true, 0, -1, m) == Value(EmptyBoard, true, 0, -1)
  {
    assert !HasLine(EmptyBoard, X) && !HasLine(EmptyBoard, O);
    assert EmptyBoard[0] == Empty;
    AsWrittenThrowsWheneverItSearches(EmptyBoard, true, 0, -1);
  }
}
