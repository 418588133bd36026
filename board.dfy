/** The board collaborator the search engine relies on: nine cells, a
    terminal test reporting the winner, the empty cells in ascending
    order, and placing a mark on an empty cell. Only what the engine
    consumes is modelled. */
module Board {

  /** One square: empty, or holding the mark of X (the maximizing
      player) or O (the minimizing player). */
  datatype Cell = Empty | X | O

  /** The board's `state`: nine cells, row by row. */
  type State = seq<Cell>

  const Size: nat := 9

  predicate WellFormed(s: State) {
    |s| == Size
  }

  /** The number of empty cells: the measure the search recursion decreases. */
  function EmptyCount(s: State): nat {
    multiset(s)[Empty]
  }

  /** The eight winning lines: three rows, three columns, two diagonals. */
  const Lines: seq<(nat, nat, nat)> :=
    [(0, 1, 2), (3, 4, 5), (6, 7, 8), (0, 3, 6), (1, 4, 7), (2, 5, 8), (0, 4, 8), (2, 4, 6)]

  /** Some line among `Lines[k..]` holds three marks `c`. */
  predicate LineFrom(s: State, c: Cell, k: nat)
    requires WellFormed(s)
    decreases |Lines| - k
  {
    k < |Lines| &&
    var (i, j, l) := Lines[k];
    ((s[i] == c && s[j] == c && s[l] == c) || LineFrom(s, c, k + 1))
  }

  /** Three marks `c` in a row, a column or a diagonal. */
  predicate HasLine(s: State, c: Cell)
    requires WellFormed(s)
  {
    LineFrom(s, c, 0)
  }

  /** What `isTerminal()` reports: not over, or over with winner
      'x', 'o' or a draw. */
  datatype Status = Ongoing | XWins | OWins | Draw

  function StatusOf(s: State): Status
    requires WellFormed(s)
  {
    if HasLine(s, X) then XWins
    else if HasLine(s, O) then OWins
    else if EmptyCount(s) == 0 then Draw
    else Ongoing
  }

  /** Every listed index is an empty cell of `s`. */
  predicate AllOpen(s: State, moves: seq<nat>) {
    forall k :: 0 <= k < |moves| ==> moves[k] < |s| && s[moves[k]] == Empty
  }

  predicate Increasing(moves: seq<nat>) {
    forall k, l :: 0 <= k < l < |moves| ==> moves[k] < moves[l]
  }

  /** The empty cells among the first `n`, in ascending order. */
  function EmptiesBelow(s: State, n: nat): (moves: seq<nat>)
    requires n <= |s|
    ensures AllOpen(s, moves) && Increasing(moves)
    ensures forall k :: 0 <= k < |moves| ==> moves[k] < n
    ensures forall i :: 0 <= i < n && s[i] == Empty ==> i in moves
  {
    if n == 0 then []
    else EmptiesBelow(s, n - 1) + (if s[n - 1] == Empty then [n - 1] else [])
  }

  /** `getAvailableMoves()`: exactly the empty cells, ascending. */
  function AvailableMoves(s: State): (moves: seq<nat>)
    ensures AllOpen(s, moves) && Increasing(moves)
    ensures forall m: nat :: m in moves <==> m < |s| && s[m] == Empty
  {
    EmptiesBelow(s, |s|)
  }

  /** `insert(mark, index)` on a fresh copy of the state. The copy has
      one empty cell fewer; `s` itself is a value and is left as it was. */
  function Insert(s: State, mark: Cell, i: nat): (t: State)
    requires mark != Empty
    requires i < |s| && s[i] == Empty
    ensures |t| == |s| && t[i] == mark
  {
    s[i := mark]
  }

  /** The copy differs from the board it was made from in exactly one
      cell: the chosen empty cell now holds `mark`, so the copy has one
      empty cell fewer. */
  lemma InsertChangesOneCell(s: State, mark: Cell, i: nat)
    requires mark != Empty
    requires i < |s| && s[i] == Empty
    ensures var t := Insert(s, mark, i);
            && |t| == |s| && s[i] == Empty && t[i] == mark
            && (forall j :: 0 <= j < |s| && j != i ==> t[j] == s[j])
            && EmptyCount(t) == EmptyCount(s) - 1
  {
  }

  /** A board is over exactly when someone has a line or no cell is
      empty; while it is not over there is a move to make. */
  lemma OngoingHasMoves(s: State)
    requires WellFormed(s)
    ensures StatusOf(s) == Ongoing <==>
              !HasLine(s, X) && !HasLine(s, O) && AvailableMoves(s) != []
  {
    var moves := AvailableMoves(s);
    if EmptyCount(s) > 0 {
      assert Empty in multiset(s);
      var i :| 0 <= i < |s| && s[i] == Empty;
      assert i in moves;
    }
    if moves != [] {
      assert s[moves[0]] == Empty;
      assert Empty in multiset(s);
    }
  }

  /** A well-formed board has at most nine empty cells. */
  lemma {:induction false} EmptyCountAtMostLength(s: State)
    ensures EmptyCount(s) <= |s|
  {
    if s != [] {
      assert s == [s[0]] + s[1..];
      assert multiset(s) == multiset{s[0]} + multiset(s[1..]);
      EmptyCountAtMostLength(s[1..]);
    }
  }
}
