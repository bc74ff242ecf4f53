# Network game player

A model of the automatic player for the board game *Network*. The game is
played on an 8x8 board of a padded 10x10 grid by Black and White, with ten
chips each. The model covers three pieces.

- **The board** (`player/Board.java`). These are the chip bookkeeping
  (`addBlack`, `addWhite`, `removeChip`), the move rules of `isValid` with
  its shared game-over latch, the enumeration of moves in `validMoves`, the
  eight-ray visibility scan `basicSeerFcn`, and the network search
  `isNetwork` / `findNetwork`. Board is a class over three `array2`s: items,
  visited flags and coordinate lists. Every method is proved against
  functions of the board's contents.
- **The machine player** (`player/MachinePlayer.java`). These are the
  apply/undo pair `updateGameBoard` / `undoMove`, `opponentMove`,
  `forceMove`, `clearCoordinates`, the fail-hard alpha-beta
  `gameTreeSearch` and `chooseMove`. Scores are `real`. The leaf evaluator
  is a function-valued field that the model leaves uninterpreted.
- **The list node** (`list/SListNode.java`). These are `next`, `prev`,
  `insertAfter`, `insertBefore`, `remove`, `valX` and `valY`, over a
  singly-linked list whose nodes are checked against a ghost sequence.

Modules, one per file:

| file | module | contents |
|---|---|---|
| moves.dfy | Moves | moves, the item grid, positions, `Put` / `Take` / `Apply` / `Undo` |
| legality.dfy | Legality | the rules of `isValid` as `Legal`, and the board invariant `Consistent` that legal moves keep |
| movelists.dfy | MoveLists | the list `validMoves` returns, as `Candidates`: its exact contents and how it fits its array |
| visibility.dfy | Visibility | what a chip sees (`Seen`), the filter of `findNetwork` (`Keep`), and networks (`Chain`, `Network`) |
| boards.dfy | Boards | the classes `Latch` (the static `GAMEOVER`) and `Board` |
| engine.dfy | Engine | the class `MachinePlayer` and the search |
| slist.dfy | SLists | the classes `SList` and `SListNode` |

`isNetwork` first counts the colour's chips in the goal line where a
network ends (column 1 for White, row 1 for Black) and answers false when
there are none (`player/Board.java:283-294, 303-314`). Only then does it
start `findNetwork` from each of the colour's chips in the other goal line,
column 8 or row 8. `NetworkNeedsFarGoal` proves that this early exit is
sound.

## Model

| member | source | states |
|---|---|---|
| Moves.Opponent | player/MachinePlayer.java:44 | the other colour, `(p + 1) % 2`, is a colour and differs from p |
| Moves.Put | player/Board.java:112-125 | addBlack/addWhite: the cell holds p's chip; p has one chip fewer in hand; the opponent's count is unchanged |
| Moves.Take | player/Board.java:132-140 | removeChip: the cell is empty; p has one chip more in hand; the opponent's count is unchanged |
| Moves.SetCell | player/Board.java:113 | writing a cell sets that cell and leaves every other cell as it was |
| Moves.PutAfterTake | player/Board.java:215-269 | lifting p's chip off its square and putting it back restores the position: isValid's temporary removal of a stepping chip undoes itself |
| Moves.StepRoundTrip | player/MachinePlayer.java:144-175 | on the grid, undoing a step right after applying it restores every cell |
| Moves.Apply | player/MachinePlayer.java:144-156 | updateGameBoard: the destination holds p's chip and, for a step, the source is empty; an Add takes one chip from p's hand, a step none; every other cell and the opponent's count are unchanged |
| Moves.Undo | player/MachinePlayer.java:163-175 | undoMove: nothing changes when the destination is empty; otherwise the destination is emptied and, for a step, p's chip is back on the source; an Add returns one chip to p's hand, a step none; every other cell and the opponent's count are unchanged |
| Moves.UndoApply | player/MachinePlayer.java:144-175 | undoMove right after updateGameBoard restores every item and both chip counts, when the destination was empty and a step's source held p's chip |
| Moves.SetCellTwice | player/MachinePlayer.java:163-175 | a second write to a cell overrides the first |
| Moves.SetCellSwap | player/MachinePlayer.java:163-175 | writes to two different cells commute |
| Legality.Legal | player/Board.java:150-271 | isValid's answer, with its checks in the source's order. A true answer means: no game over, not Quit, on the board, an empty destination, a step from p's own chip, no corner, outside the opponent's goals, a chip in hand for an Add, and the group rule satisfied on the grid with the stepping chip lifted |
| Legality.Crowded | player/Board.java:218-260 | the group rule's rejection: two or more p chips already around the destination, or a p chip next to it that has two or more around itself |
| Legality.PlaceableLegal | player/Board.java:210-260 | once the placement checks pass, isValid's answer is exactly the group rule's |
| Legality.CrowdedByScan | player/Board.java:218-260 | the group rule as isValid's loops check it (countMain >= 2, or a neighbour with countSecondary >= 2) is exactly "two or more p chips around the destination, or one with two or more around itself" |
| Legality.CountRectSet | player/Board.java:218-234 | changing one cell changes a neighbourhood count by that cell's contribution only when the cell lies inside it |
| Legality.CalmRectAll | player/Board.java:218-249 | the row-by-row neighbour check holds exactly when every cell of the block passes it |
| Legality.LiftKeepsNoCluster | player/Board.java:214-215 | emptying a cell never creates a group of three |
| Legality.PlaceKeepsNoCluster | player/Board.java:218-260 | a chip the group rule admits onto an empty cell leaves its colour without a group of three |
| Legality.PlaceKeepsOther | player/Board.java:218-260 | a chip of one colour never creates a group of three of the other colour |
| Legality.ApplyGrid | player/MachinePlayer.java:144-156 | the grid after a move is the lifted grid with the destination set |
| Legality.ApplyCounts | player/MachinePlayer.java:144-156 | an Add puts one more chip of the mover on the board; a step inside its area puts none; the other colour is untouched |
| Legality.ApplyKeepsNoCluster | player/Board.java:214-260 | after a move the group rule admits, neither colour has a group of three |
| Legality.ApplyKeepsArea | player/Board.java:199-207 | after a move onto the mover's area, every chip is still outside its opponent's goals |
| Legality.LegalKeepsColor | player/Board.java:150-271 | a legal move keeps one colour's part of the invariant: chips in hand plus on the board make ten, no chip in the opponent's goals, no group of three |
| Legality.LegalKeepsConsistent | player/Board.java:150-271 | every move isValid accepts keeps the board invariant for both colours |
| Legality.AreaSplit | player/Board.java:72-76 | each colour's area of 48 squares holds Black, White or nothing |
| Legality.AreaCountSet | player/Board.java:112-140 | changing one cell changes an area count by that cell's contribution when the cell lies in the area, and not otherwise |
| Legality.Consistent | player/Board.java:150-271 | the board invariant that every move isValid accepts keeps: per colour, 0 to 10 chips in hand and ten minus that many on the board, none in the opponent's goals, no group of three |
| Legality.InitialConsistent | player/Board.java:37-46 | the new board, empty with ten chips in hand each, satisfies the invariant |
| MoveLists.Candidates | player/Board.java:60-105 | the moves validMoves lists: every one is accepted by isValid; only Adds while chips remain, only steps once none remain |
| MoveLists.CandidatesExact | player/Board.java:81-103 | a move is listed exactly when isValid accepts it in the current phase (an Add with no source, or a step once no chips remain) |
| MoveLists.CandidatesFit | player/Board.java:72-76 | on a consistent board the list fits the array validMoves allocates: 48 - (10 - chips) slots while chips remain, 380 afterwards |
| MoveLists.AcceptsSensible | player/Board.java:88-98 | a move isValid accepts lands in the mover's area, and an Add needs a chip in hand |
| MoveLists.ScanSquaresSound | player/Board.java:81-103 | everything the nested loops list was accepted, with the shape the loops build |
| MoveLists.ScanHas | player/Board.java:81-103 | whatever a square contributes appears in the loops' output |
| MoveLists.ScanUpTo | player/Board.java:79-103 | what the loops have written before square (i, j) is a prefix of the final list |
| MoveLists.ScanSize | player/Board.java:79-103 | the list is no longer than any bound on what each square contributes, summed |
| MoveLists.EmptyInArea | player/Board.java:73 | on a consistent board at most 48 - (10 - chips) squares of the mover's area are empty |
| MoveLists.AddPhaseFit | player/Board.java:72-73 | while chips remain, each empty square of the mover's area yields at most one move |
| MoveLists.StepPhaseFit | player/Board.java:74-75 | once no chips remain, each of the mover's chips yields at most 38 steps |
| MoveLists.TotalArea | player/Board.java:81-82 | summing one per square over the scanned rows counts the matching squares of the area |
| Visibility.NoMarks | player/Board.java:37-46 | no visited flag is set |
| Visibility.FirstOnRay | player/Board.java:446-455 | one ray loop of basicSeerFcn: its find is an unvisited chip of p in the ray's direction, in a cell the loop guard admits |
| Visibility.Seen | player/Board.java:439-560 | the coordinate list basicSeerFcn builds, the finds of the eight rays: at most eight entries |
| Visibility.RaySound | player/Board.java:447-455 | a ray's find is an unvisited chip of p, in the ray's direction, on the ray, in a cell the loop guard admits |
| Visibility.RayFewerMarks | player/Board.java:448 | clearing visited flags never hides a chip a ray saw |
| Visibility.RaysOwnDirection | player/Board.java:439-560 | each ray reports its own compass direction |
| Visibility.ListedInOrder | player/Board.java:452-555 | inserting the finds of distinct directions in turn gives exactly those finds, one per direction |
| Visibility.SeenUnfolded | player/Board.java:439-560 | the list is the SE, SW, NE, NW, S, N, E, W finds in that order, because each find of the W, E, N, S, NW, NE, SW, SE scans is inserted at the front |
| Visibility.SeenExact | player/Board.java:439-560 | the list holds exactly each ray's find, at most one per compass direction |
| Visibility.SeenSound | player/Board.java:439-560 | every entry is an unvisited chip of p on the board proper, other than the looking chip |
| Visibility.SeenFewerMarks | player/Board.java:448-551 | clearing visited flags keeps every entry in the list |
| Visibility.Keep | player/Board.java:389-404 | the filter loop of findNetwork: every kept entry comes from the list, its chip is unvisited and its direction differs from the arriving hop's; the list never grows |
| Visibility.KeepExact | player/Board.java:389-404 | the filter loop keeps exactly the entries whose chip is unvisited and whose direction differs from the arriving hop's; it never lengthens the list |
| Visibility.BaseCase | player/Board.java:339-374 | true exactly when the counter is 6 to 10 and the chip is in the far goal line; going on only when the counter is at most 9, the chip is off that line, and (after the first hop) away from the near goal line |
| Visibility.Cells | player/Board.java:386-424 | the chips a path passes through, the start first |
| Visibility.DistinctCons | player/Board.java:386-424 | a hop to a new chip followed by a path of distinct chips avoiding the start is a path of distinct chips |
| Visibility.Chain | player/Board.java:338-427 | a path of hops along which findNetwork can succeed: the counter at its start plus its hops make 6 to 10 chips |
| Visibility.Network | player/Board.java:280-324 | what isNetwork accepts: a chain of distinct chips of p from p's near goal line, of 6 to 10 chips (5 to 9 hops) |
| Visibility.ChainShape | player/Board.java:338-427 | a chain findNetwork accepts ends in the far goal line after 6 to 10 chips; it touches that line nowhere else, holds only chips of p, and never hops twice in a row in one direction |
| Visibility.NetworkShape | player/Board.java:277-324 | a network has at least six chips, all of p, and ends in the far goal line |
| Visibility.NetworkNeedsFarGoal | player/Board.java:285-314 | a network needs a chip in the far goal line, so isNetwork's early false on an empty line is sound |
| Boards.Latch.constructor | player/Board.java:31 | the game-over latch starts unset |
| Boards.Board.constructor | player/Board.java:37-46 | every cell is empty and unvisited with an empty list; ten chips in hand each; the board satisfies the invariant |
| Boards.Board.ValidMoves | player/Board.java:60-105 | a fresh array of the source's length holds the moves of Candidates in the loops' order, followed by nulls; the items, counts and latch are unchanged |
| Boards.Board.AllSquares | player/Board.java:81-103 | the loop over i writes the whole scan at the front of the array |
| Boards.Board.SquaresRow | player/Board.java:82-102 | the loop over j appends what the squares of row i contribute |
| Boards.Board.Square | player/Board.java:83-101 | one square contributes the steps of p's chip there once no chips remain, otherwise the accepted Add onto it if empty |
| Boards.Board.StepsOf | player/Board.java:84-94 | the loops over (k, l) append the accepted steps of the chip at (i, j) |
| Boards.Board.StepsRow | player/Board.java:85-93 | the loop over l appends the accepted steps to row k |
| Boards.Board.StepTo | player/Board.java:86-92 | a step to an empty square is offered to isValid |
| Boards.Board.Offer | player/Board.java:88-91 | an accepted move is written at the counter, which advances; a rejected one changes nothing |
| Boards.Board.AddBlack | player/Board.java:112-115 | the cell holds Black and Black has one chip fewer; nothing else changes |
| Boards.Board.AddWhite | player/Board.java:122-125 | the cell holds White and White has one chip fewer; nothing else changes |
| Boards.Board.RemoveChip | player/Board.java:132-140 | the cell is empty with an empty list; p (White, or else Black) has one chip more; nothing else changes |
| Boards.Board.CountAround | player/Board.java:225-234 | the inner double loop counts p's chips in the 3x3 block |
| Boards.Board.PutBack | player/Board.java:236-243 | a stepping chip goes back on its source |
| Boards.Board.IsValid | player/Board.java:150-271 | the answer is Legal for the board and latch as they were; Quit sets the latch for good; the items and both counts end as they began; only a step reaching the group rule leaves its source cell's list emptied |
| Boards.Board.PlacementRules | player/Board.java:164-207 | the checks between Quit and the group rule, in order, answer Fits and change nothing |
| Boards.Board.GroupCheck | player/Board.java:214-269 | lift the stepping chip, check the group rule, put the chip back: the answer is the rule on the lifted grid and the position is unchanged |
| Boards.Board.LiftedGroupRule | player/Board.java:214-249 | for a step the rule is checked with the source chip taken off |
| Boards.Board.GroupRule | player/Board.java:218-260 | the double loop and the countMain test accept exactly when the destination is not Crowded |
| Boards.Board.GroupRow | player/Board.java:219-248 | one row of the scan: whether each p chip there has fewer than two p chips around it, and how many there are |
| Boards.Board.Look | player/Board.java:447-455 | one ray loop inserts the ray's find, if any, at the front of the list |
| Boards.Board.Prepend | player/Board.java:452 | insertFront on a cell's list |
| Boards.Board.BasicSeer | player/Board.java:439-560 | the cell's list becomes Seen for the current items and visited flags; nothing else changes |
| Boards.Board.Prune | player/Board.java:389-404 | the filter loop leaves Keep of the list |
| Boards.Board.Survey | player/Board.java:377-404 | a new list is filled by basicSeerFcn; if it is empty nothing is marked, otherwise the cell is marked visited and the list filtered |
| Boards.Board.BaseChecks | player/Board.java:339-374 | the base cases in the source's order compute BaseCase |
| Boards.Board.FindNetwork | player/Board.java:338-427 | a base case gives its answer; true only along a Chain of distinct chips unvisited on entry; every flag set on entry stays set, except possibly the cell's own |
| Boards.Board.Descend | player/Board.java:411-426 | the loop over the filtered list: true with the first entry whose search succeeds; otherwise the cell's flag is cleared |
| Boards.Board.IsNetwork | player/Board.java:277-324 | false with more than four chips in hand or an empty far goal line; true only with a Network of p |
| Boards.UpdateTwice | player/Board.java:377-378 | writing a list twice keeps the second write |
| Boards.RestoredAfterStep | player/Board.java:263-269 | putting the stepping chip back after the check restores the position |
| Engine.Terminal | player/MachinePlayer.java:211-234 | the terminal cases in order. Both networks give a score below zero when the machine is to move and above zero otherwise; the machine's network gives a positive score, the opponent's a negative one; past the depth bound, the leaf score divided by depth; the node is searched on exactly when no case applies |
| Engine.QuickerWinScoresHigher | player/MachinePlayer.java:221-229 | a machine network found at a smaller depth scores strictly higher; an opponent network, strictly lower |
| Engine.DefaultDepth | player/MachinePlayer.java:84-100 | the configured depth; by default 2 once no chips remain in hand and 3 before |
| Engine.Scrub | player/MachinePlayer.java:178-187 | after n cells of the row-major 9x9 scan, exactly the occupied ones among them are reset |
| Engine.ScrubNone | player/MachinePlayer.java:178-187 | before the scan nothing is reset |
| Engine.ScrubStep | player/MachinePlayer.java:181-184 | one more cell of the scan resets it exactly when it is occupied |
| Engine.MachinePlayer.constructor | player/MachinePlayer.java:42-46 | the given colour, the opponent's colour and search depth, on a new board |
| Engine.MachinePlayer.Default | player/MachinePlayer.java:32-34 | the default search depth -1 |
| Engine.MachinePlayer.UpdateGameBoard | player/MachinePlayer.java:144-156 | the position becomes Apply: p's chip on the destination and, for a step, off the source |
| Engine.MachinePlayer.UndoMove | player/MachinePlayer.java:163-175 | the position becomes Undo; nothing at all changes when the destination is empty |
| Engine.MachinePlayer.Record | player/MachinePlayer.java:114-137 | returns isValid's answer; applies the move when legal and changes no item or count otherwise; keeps the invariant |
| Engine.MachinePlayer.OpponentMove | player/MachinePlayer.java:114-120 | exactly isValid for the opponent's colour; applied when true; items and counts unchanged when false |
| Engine.MachinePlayer.ForceMove | player/MachinePlayer.java:131-137 | exactly isValid for the machine's colour; applied when true; items and counts unchanged when false |
| Engine.MachinePlayer.ClearCoordinates | player/MachinePlayer.java:178-187 | every occupied cell with both indices below 9 gets an empty list and an unset flag; every other cell keeps both |
| Engine.MachinePlayer.ClearRow | player/MachinePlayer.java:180-185 | the inner loop over one row |
| Engine.MachinePlayer.ClearCell | player/MachinePlayer.java:182-183 | one cell's list emptied and flag unset |
| Engine.MachinePlayer.TestNetwork | player/MachinePlayer.java:211 | an isNetwork answer of true is backed by a network |
| Engine.MachinePlayer.Snapshot | player/MachinePlayer.java:233 | the items and chip counts of the board, the part of its state the stand-in evaluator is given (it does not see the visited flags that evaluatorFcn reads) |
| Engine.MachinePlayer.GameTreeSearch | player/MachinePlayer.java:202-281 | every true network test is backed by a network. A terminal node returns no move and Terminal's score. Otherwise the result satisfies Searched over validMoves' list. Items, counts and latch are restored on return |
| Engine.MachinePlayer.Verdict | player/MachinePlayer.java:211-234 | the terminal tests in order give Terminal for the tests that answered true |
| Engine.MachinePlayer.Networks | player/MachinePlayer.java:211-230 | each network test is made only when the ones before answered false, and a true answer is backed by a network |
| Engine.MachinePlayer.SearchMoves | player/MachinePlayer.java:237-280 | the node starts from alpha (machine) or beta (opponent). The returned move is none or one of the tried moves. The machine's score is at least alpha, above alpha exactly when a move is returned, and at least beta on a cut-off; the opponent's is the mirror image. The board is restored |
| Engine.MachinePlayer.MoveLoop | player/MachinePlayer.java:257-279 | the loop over the array stops at the first null or when alpha >= beta, with Searched holding over the moves tried |
| Engine.MachinePlayer.Probe | player/MachinePlayer.java:259-261 | apply, search one level deeper, undo: the items, counts and latch are as before |
| Engine.MachinePlayer.ChooseMove | player/MachinePlayer.java:67-105 | chooseMove as written: the pre-search, whose early return is never taken, then the search; the chosen move is legal for the machine and applied to the board; the invariant is kept; with no move the board is unchanged |
| Engine.MachinePlayer.ChooseMoveCorrected | player/MachinePlayer.java:67-105 | chooseMove with the corrected pre-search: a blocking move, or else the search's move, is legal for the machine and applied to the board; the invariant is kept; with no move the board is unchanged |
| Engine.MachinePlayer.SearchAndRecord | player/MachinePlayer.java:82-104 | the search at depth 1 down to the default depth; its move is legal for the machine and is applied to the board; with no move the board is unchanged |
| Engine.MachinePlayer.PreSearch | player/MachinePlayer.java:68-80 | corrected pre-search: a returned move is legal for both colours, completes an opponent network, and the board is as it was |
| Engine.MachinePlayer.BlockLoop | player/MachinePlayer.java:69-80 | the loop of the corrected pre-search over validMoves' array |
| Engine.MachinePlayer.Guard | player/MachinePlayer.java:70-77 | true only for a move that completes an opponent network and that the machine may make; the board is restored |
| Engine.MachinePlayer.Trial | player/MachinePlayer.java:71-78 | apply the opponent's move, test for its network, undo: the position is unchanged, and true means a threat |
| Engine.MachinePlayer.PreSearchAsWritten | player/MachinePlayer.java:68-80 | the pre-search as written never returns early, and every trial is undone |
| Engine.MachinePlayer.LoopAsWritten | player/MachinePlayer.java:69-80 | the loop as written leaves the position and latch as they were |
| Engine.MachinePlayer.TrialAsWritten | player/MachinePlayer.java:70-79 | one trial as written: applied, tested, the isValid check fails, undone |
| Engine.MachinePlayer.BlockAsWritten | player/MachinePlayer.java:72-76 | the threat branch as written: isValid is asked with the trial chip still in place and answers false |
| Engine.CandidatesLegal | player/MachinePlayer.java:254-258 | every move the search loops over is legal |
| Engine.TrialSquareTaken | player/MachinePlayer.java:71-75 | once p's legal move is on the board, that same move is legal for no colour: its destination is taken |
| Engine.LegalKeepsConsistentGrid | player/MachinePlayer.java:144-156 | a legal move keeps the grid well formed |
| SLists.SList.constructor | player/Board.java:377 | a new list is empty |
| SLists.SList.InsertFront | player/Board.java:452 | a fresh node holding the entry becomes the head; the other nodes follow in order; size grows by one |
| SLists.SList.Front | player/Board.java:390 | the head node, or a fresh invalid node for an empty list |
| SLists.SList.IndexOf | list/SListNode.java:92-100 | a node of the list has exactly one position |
| SLists.SListNode.constructor | list/SListNode.java:31-37 | the node stores the item, the coordinates, the list and the successor |
| SLists.SListNode.ValX | list/SListNode.java:43-45 | the stored x, which for a node of a list is the x of its entry |
| SLists.SListNode.ValY | list/SListNode.java:51-53 | the stored y, which for a node of a list is the y of its entry |
| SLists.SListNode.Next | list/SListNode.java:64-76 | an invalid node fails; otherwise the following node, or a fresh invalid node after the last one |
| SLists.SListNode.Prev | list/SListNode.java:88-103 | an invalid node fails; otherwise the node whose next is this one, or a fresh invalid node at the head |
| SLists.SListNode.InsertAfter | list/SListNode.java:116-126 | an invalid node fails and nothing changes; otherwise a fresh node with the entry sits right after this one, the other nodes and entries keep their order, and size grows by one |
| SLists.SListNode.InsertBefore | list/SListNode.java:139-151 | an invalid node fails and nothing changes; otherwise a fresh node with the entry sits right before this one, the rest keep their order, and size grows by one |
| SLists.SListNode.InsertBeforeHead | list/SListNode.java:143-145 | before the head: the new node becomes the head |
| SLists.SListNode.InsertBeforeInner | list/SListNode.java:146-149 | before an inner node: its predecessor now links to the new node |
| SLists.SListNode.Remove | list/SListNode.java:161-183 | an invalid node fails and nothing changes; otherwise the nodes and entries become s[..i] + s[i+1..], size falls by one, and this node is invalid with no successor |
| SLists.SListNode.RemoveHead | list/SListNode.java:165-169 | removing the head moves the head to its successor |
| SLists.SListNode.RemoveInner | list/SListNode.java:170-176 | removing an inner node links its predecessor to its successor |
| SLists.GrownEnds | list/SListNode.java:120-125 | after an insertion, the new node is the head when inserted first and the tail when inserted last; size is one more |
| SLists.ShrunkEnds | list/SListNode.java:165-177 | after a removal, the head moves on when the head was removed, the tail moves back when the tail was removed, and an emptied list has neither |
| SLists.GrownThenShrunk | list/SListNode.java:116-183 | removing the node just inserted gives back the former nodes and entries |
| SLists.ShrunkThenGrown | list/SListNode.java:116-183 | inserting the removed entry back at its position gives back the former nodes and entries |
| SLists.Inserted | list/SListNode.java:120-125 | linking a node in keeps the list well formed |
| SLists.Removed | list/SListNode.java:165-182 | unlinking a node and invalidating it keeps the list well formed |

## Left out

- The floating-point scorers `evaluatorFcn`, `countConnections`, `borderCount` (`player/Board.java:687-757`) and the unused `evaluatorFcn2` (`player/MachinePlayer.java:284-369`) are left out. The search takes an uninterpreted leaf evaluator `(Position, int) -> real` instead.
- The stand-in evaluator hides two behaviours of `evaluatorFcn`. It is given only the items and chip counts, while `evaluatorFcn` also reads the visited flags through `basicSeerFcn` and `seerFcn` (`player/Board.java:704-707`), so its value depends on history as `isNetwork`'s does. And it always returns a real number, while `evaluatorFcn` computes `(hero-enemy)/(hero+enemy)` (`player/Board.java:714`), which is 0/0, NaN, whenever no chip in the inner rows and columns sees another; the strict comparisons at `player/MachinePlayer.java:262` and `:266` never keep a NaN score.
- `seerFcn` (`player/Board.java:572-685`) feeds only those scorers and is left out.
- Console output and test scaffolding are left out, being I/O: `toString`, `border`, `testNetworks`, both `main` methods, the debug prints of `isValid`, and the error prints in the catch blocks of `findNetwork`.
- The copy constructor `Board(Board b)` aliases the grid, and nothing modelled uses it.
- `findWin` is never called.
- `Move`, `Player`, `SList`, `ListNode` and `InvalidNodeException` are not part of this model. `Move` is a datatype. `SList` is modelled only at the interface its uses show: `head`, `tail`, `size`, a constructor, `insertFront` and `front`. `InvalidNodeException` is the `InvalidNode` result. `isValidNode` is `myList != null`.
- `SpaceNode` and `Best` are plain data holders. They are folded into the board's three arrays and into the `Best` datatype.
- A coordinate list stored on a board cell is modelled as a sequence of entries rather than as `SList` objects. The list classes are verified separately in `SLists`.
- Java `double` scores become `real`, and the depth, a double that only holds whole numbers, becomes `int`. Chip counts stay between 0 and 10 on every consistent board, so 32-bit overflow never arises.
- Boards.Board.IsNetwork: only soundness is stated (a true answer has a network), not completeness. Stale visited flags make the answer depend on history: `removeChip` does not clear a cell's flag, `clearCoordinates` skips empty cells, and `findNetwork` leaves flags set on two exits. So a network can be missed.
- Boards.Board.FindNetwork: soundness and flag monotonicity only, for the same reason.
- Engine.MachinePlayer.TestNetwork: soundness only, as for isNetwork.
- Engine.MachinePlayer.GameTreeSearch: the bounds and move provenance of fail-hard alpha-beta are stated. That its score equals the minimax value is not, because the network tests are not complete.
- Engine.MachinePlayer.Probe: states the board's restoration, not the reply's score. The reply's properties are those of GameTreeSearch.
- Boards.Board.ValidMoves: requires the board invariant `Consistent`, which the source does not check. Without it, the listed moves could overrun the array the source allocates. Every board the model builds satisfies it (`InitialConsistent`, `LegalKeepsConsistent`).
- Engine.MachinePlayer.SearchMoves, Engine.MachinePlayer.GameTreeSearch, Engine.MachinePlayer.ChooseMove, Engine.MachinePlayer.ChooseMoveCorrected, Engine.MachinePlayer.SearchAndRecord, Engine.MachinePlayer.PreSearch and Engine.MachinePlayer.PreSearchAsWritten: require `Consistent` for the same reason.
- Boards.Board.IsValid: requires `InGrid(m)`, coordinates whose padded cells exist. For coordinates outside the grid the source answers false when `GAMEOVER` is set (`player/Board.java:153`), when an Add finds no chip in hand (`:164-173`) or when a step's source, itself in range, is not the player's; otherwise it throws `ArrayIndexOutOfBoundsException` at `:177` or `:188`. The model leaves that case out as a precondition; a Quit is admitted whatever its coordinates.
- Legality.Legal: requires `InGrid(m)`, as for Boards.Board.IsValid.
- Engine.MachinePlayer.Record: requires `InGrid(m)`, as for Boards.Board.IsValid.
- Engine.MachinePlayer.OpponentMove: requires `InGrid(m)`, as for Boards.Board.IsValid.
- Engine.MachinePlayer.ForceMove: requires `InGrid(m)`, as for Boards.Board.IsValid.
- Engine.MachinePlayer.ChooseMove: when the search returns no move, the source dereferences null. The model returns None and leaves the board as it was; so do Engine.MachinePlayer.ChooseMoveCorrected and Engine.MachinePlayer.SearchAndRecord.
- Engine.MachinePlayer.ChooseMove: the contract does not tie the chosen move to the search's score, only to legality and to the board update. The same holds for Engine.MachinePlayer.ChooseMoveCorrected and Engine.MachinePlayer.SearchAndRecord.
- The SListNode methods take the node's list as a ghost parameter `l`, standing for `myList`. SLists.SListNode.ValX and SLists.SListNode.ValY require the node to be invalid or a node of `l`.
- The static `GAMEOVER` flag is a `Latch` object that each board refers to; boards built with the same latch share it.

## Findings

| source | as written | input that shows it | evidently intended | confidence | as-written member | corrected member |
|---|---|---|---|---|---|---|
| player/MachinePlayer.java:68-80 | the pre-search applies the opponent's trial move, and on an opponent network asks `isValid(m, machinePlayerColor)` while the opponent's chip still stands on m's destination. isValid rejects an occupied destination (`player/Board.java:188-190`), so the block at line 75 is never returned | any board where one opponent Add completes an opponent network: the trial chip occupies the square, isValid answers false, and the move is undone | undo the trial move first, then offer the same square to the machine, and return it if isValid accepts it | not executed; medium | Engine.TrialSquareTaken, Engine.MachinePlayer.PreSearchAsWritten, Engine.MachinePlayer.ChooseMove | Engine.MachinePlayer.PreSearch, Engine.MachinePlayer.ChooseMoveCorrected |
