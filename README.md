# Tic-tac-toe computer player: minimax search

This project models the computer player of a tic-tac-toe game,
`Player.getBestMove`, and proves what it computes. A search runs in three
stages:

- **Scoring.** Finished positions are scored by depth: an X win scores
  `100 - depth`, an O win `-100 + depth`, and a draw `0`. An unfinished
  position at the configured depth limit also scores `0`.
- **Recursion.** The search takes each available move in ascending order,
  copies the board, places the mover's mark and searches the copy one ply
  deeper for the other side. X maximizes, O minimizes, and the running best
  starts at the sentinel `-100` or `100`.
- **Root selection.** Only at depth 0, each move is filed under its child's
  score in the player's map `nodes_map`. The call then takes the bucket of
  the best score, draws one of its moves with `Math.random` if there are
  several, passes that move to the callback and returns it.

Files:

- `board.dfy` (module `Board`): the minimal board the search consumes. It
  has nine cells, a terminal test, the empty cells in ascending order, and
  `insert` on a copy.
- `player.dfy` (module `Player`):
  - the pure specification: `Value` for the score of a non-root call,
    `Buckets` for the tie-break map, and `RootChoice` for the root's move;
  - the lemmas about that specification;
  - the class `Player`. It has the fields `maxDepth`, `nodesMap` and a ghost
    `callbackLog`. Its method `GetBestMove` (with the loop in
    `ScoreChildren`) is proved to compute exactly the specification.
- `as_written.dfy` (module `AsWritten`): the outcome of a call as written,
  where the recursive calls pass undeclared arguments, and a proof that it
  throws whenever the search reaches a child (see Findings).

## Model

| member | source | states |
|---|---|---|
| Player.Player.constructor | src/classes/Player.js:10-14 | The depth limit defaults to -1, and the tie-break map starts empty. No callback has been made yet. |
| Player.Player.GetBestMove | src/classes/Player.js:23-173 | A call at depth > 0 returns the position's minimax score `Value` and changes neither the map nor the callback log. A root call clears the map. On a finished board, or with limit 0, the root returns the score and makes no callback. Otherwise it leaves the map equal to the children's score buckets, returns `RootChoice` for the draw, and logs exactly one callback carrying the returned move. |
| Player.Player.ScoreChild | src/classes/Player.js:58-67 | A child is a copy with the mover's mark ('x' when maximizing, 'o' otherwise) on the chosen empty cell. It is searched for the other side at depth + 1, and its score is that child's `Value`. The map and the callback log are unchanged. |
| Player.Player.ScoreChildren | src/classes/Player.js:52-82 | The loop's result is the max (or min) of the sentinel and the children's scores in move order. At the root, it leaves the map holding exactly the moves filed under each score in move order. Below the root it leaves the map as it was and never calls back. |
| Board.AvailableMoves | src/classes/Player.js:54 | A cell is listed iff it is empty, and the list is strictly ascending. |
| Board.InsertChangesOneCell | src/classes/Player.js:122-126 | The child differs from its parent only in the chosen, previously empty cell, which now holds the mark. The child has one empty cell fewer, which is the measure the recursion decreases. |
| Board.OngoingHasMoves | src/classes/Player.js:35 | A board is unfinished iff neither side has a line and some move is available. So the loop always visits at least one child. |
| Player.StopScores | src/classes/Player.js:35-41 | An X win scores 100 - depth, an O win -100 + depth and a draw 0. An unfinished board at the depth limit scores 0. |
| Player.FasterWinsScoreHigher | src/classes/Player.js:36-39 | On a finished board, a shallower X win scores strictly higher than a deeper one, and a deeper O win scores strictly higher than a shallower one. |
| Player.ScoreWindow | src/classes/Player.js:52-71 | Every score at ply `depth` lies in [-100 + depth, 100 - depth]. So every score is in [-100, 100]. |
| Player.MaxMinOverChildren | src/classes/Player.js:114-135 | An unfinished position above the limit scores no worse than every child, and some child attains that score. So the sentinel never survives, and the score is exactly the max (X) or min (O) over the children. |
| Player.UnreachableLimitIsInert | src/classes/Player.js:10-12 | A limit that no remaining ply can reach changes no score. This includes the default -1, which no depth equals. |
| Player.FoldIsExtreme | src/classes/Player.js:71 | The running best `Math.max`/`Math.min` leaves is at least as good as the sentinel and as every value seen, and it is the sentinel or one of those values. |
| Player.BucketsCollectAchievers | src/classes/Player.js:75-81 | The map has a key exactly for the scores some move achieved. Under each key are exactly the moves achieving it, in the order they were seen. |
| Player.RootBucketIsOptimal | src/classes/Player.js:139-145 | At an unfinished root, the best score is a key. Its bucket is non-empty, ascending, and holds exactly the available moves whose child scores best. No move's child scores better. |
| Player.PickIndex | src/classes/Player.js:91 | `floor(random * len)` lies in [0, len). |
| Player.PickIndexUniform | src/classes/Player.js:155 | Index j is drawn exactly when the random value lies in [j/len, (j+1)/len). So a uniform draw picks each index with equal chance. |
| Player.RootChoice | src/classes/Player.js:86-97 | The returned move is available, its child scores the root's best score, and no available move's child scores better. |
| Player.TieBreakReachesEveryOptimalMove | src/classes/Player.js:150-161 | Every available move tied for the best score is returned for some draw. |
| Player.ImmediateWinIsPlayed | src/classes/Player.js:86-102 | If the side to move can complete a line at once, the root plays a move that completes a line. |
| Player.TopChildScoreIsImmediateWin | src/classes/Player.js:62-71 | A child of the root scores 99 (X) or -99 (O) only if that child is a win for the mover. On an unfinished board this means the move completes a line. |
| Player.Value | src/classes/Player.js:35-71 | The score a call below the root returns. It is the stop score on a finished board or at the depth limit. Otherwise it is the max (X) or min (O) of the sentinel and the children's scores, in move order (lines 114-135 for O). Its properties are stated by `StopScores`, `ScoreWindow` and `MaxMinOverChildren`. |
| Player.Buckets | src/classes/Player.js:139-145 | The tie-break map after the root's loop has seen the given moves and scores. Each move is appended under its score, and a new key is created on a score's first move. `BucketsCollectAchievers` characterises it. |
| Player.Select | src/classes/Player.js:88-97 | The move taken from a non-empty bucket. It is the only entry, or the entry at the drawn index when there are several. Either way it is an entry of the bucket. |
| Board.StatusOf | src/classes/Player.js:35-41 | What `isTerminal()` reports: an X line, else an O line, else a draw when no cell is empty, else not over. `OngoingHasMoves` relates it to the available moves. |
| Board.Insert | src/classes/Player.js:58-62 | `insert` on a copy of the state: the copy has the same size and holds the mark in the chosen empty cell. `InsertChangesOneCell` shows nothing else changes. |
| AsWritten.GetBestMoveAsWritten | src/classes/Player.js:67 | The outcome of a call as written. Where the search stops it returns the stop score. Otherwise the first child's recursive call reads the undeclared `alpha` (also at line 131) and throws a `ReferenceError`. |
| AsWritten.AsWrittenThrowsWheneverItSearches | src/classes/Player.js:67 | As written, a call throws exactly on an unfinished board above the depth limit. Where it returns, it returns the intended score. |
| AsWritten.FirstMoveThrows | src/classes/Player.js:131 | As written, asking for the first move on the empty board throws, while the intended search returns an available optimal move. |

## Left out

- The check that `board` is a `Board` instance (src/classes/Player.js:27). Boards are statically typed here, so the guard cannot fail.
- `Board.js` is not part of this model. Only what the search uses is modelled:
  - nine cells;
  - `isTerminal` (the X line is tested before the O line, then a full board);
  - `getAvailableMoves` as the ascending empty cells;
  - `insert` on an empty cell.
- Comma-joined buckets (src/classes/Player.js:79, 88-92, 143, 152-156). The source stores a bucket as a number or a comma-joined string, so a tied root returns the move as a string and an untied root returns a number. The model keeps buckets as sequences and always returns the number.
- `Math.random` is the parameter `rnd` in [0, 1). Which move a particular draw picks is modelled, but no probability distribution is.
- The callback's own effects. Each invocation is recorded in the ghost `callbackLog` with the value passed.
- The two branches of the source (maximizing, lines 49-108; minimizing, lines 110-171) are one method here. They differ only in the mark, the sentinel and max versus min, and those are parameters of the model.
- Player.ScoreWindow: requires `depth + EmptyCount(board) <= 100`. Every call reached from a root call satisfies this, since a board has at most nine empty cells. A caller passing a huge explicit `depth` can get a score outside [-100, 100].
- Optimality against the full game tree of tic-tac-toe, for example "the player never loses". That would need evaluating the whole tree.
- The undeclared `alpha` and `beta` arguments (src/classes/Player.js:67, 131) are not passed in the main model. See Findings.

## Findings

| source | as written | input that shows it | evidently intended | confidence | as-written member | corrected member |
|---|---|---|---|---|---|---|
| src/classes/Player.js:67 | Both recursive calls (lines 67 and 131) pass `alpha` and `beta`, which are declared nowhere. Reading them throws a `ReferenceError`, so every search that reaches a child throws. | `getBestMove` on the empty board, X to move, default depth limit: the first child's call throws before any move is returned or passed to the callback. | A plain minimax recursion; `getBestMove` takes no pruning parameters. | high, not executed | AsWritten.GetBestMoveAsWritten, AsWritten.FirstMoveThrows | Player.Player.GetBestMove |
