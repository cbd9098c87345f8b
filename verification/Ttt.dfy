/** Tic-tac-toe by alpha-beta search with move ordering (cheapos/tasks/ttt.c). */
module TicTacToe {
  import opened Wrappers

  const SQUARES: int := 9
  const INFINITY: int := 10
  const MAXIMUM_MOVES: int := 9
  const EMPTY: char := ' '

  /** The eight combinations of three squares in a row. */
  const THREE_IN_A_ROW: seq<seq<int>> :=
    [[0, 1, 2], [3, 4, 5], [6, 7, 8], [0, 3, 6], [1, 4, 7], [2, 5, 8], [0, 4, 8], [2, 4, 6]]

  const HEURISTIC_ARRAY: seq<seq<int>> :=
    [[0, -10, -100, -1000], [10, 0, 0, 0], [100, 0, 0, 0], [1000, 0, 0, 0]]

  type Board = seq<char>

  predicate IsPlayer(c: char) {
    c == 'X' || c == 'O'
  }

  ghost predicate IsBoard(b: Board) {
    |b| == SQUARES && forall i | 0 <= i < SQUARES :: IsPlayer(b[i]) || b[i] == EMPTY
  }

  function Other(player: char): char {
    if player == 'X' then 'O' else 'X'
  }

  // ---------- The game ----------

  /** `player` has row `r`. */
  ghost predicate HasRow(b: Board, r: int, player: char)
    requires |b| == SQUARES && 0 <= r < 8
  {
    b[THREE_IN_A_ROW[r][0]] == player && b[THREE_IN_A_ROW[r][1]] == player && b[THREE_IN_A_ROW[r][2]] == player
  }

  /** The owner of the first full row from `r` on. */
  ghost function RowWinner(b: Board, r: nat): (w: Option<char>)
    requires |b| == SQUARES
    decreases 8 - r
  {
    if r >= 8 then None
    else
      var c := b[THREE_IN_A_ROW[r][0]];
      if c != EMPTY && HasRow(b, r, c) then Some(c) else RowWinner(b, r + 1)
  }

  /** The winner, 'C' for a tie, or EMPTY when the game goes on. */
  ghost function Winner(b: Board): char
    requires |b| == SQUARES
  {
    match RowWinner(b, 0)
    case Some(c) => c
    case None => if EMPTY in b then EMPTY else 'C'
  }

  ghost function Free(b: Board): set<int> {
    set i | 0 <= i < |b| && b[i] == EMPTY
  }

  ghost predicate CanPlay(b: Board, sq: int) {
    |b| == SQUARES && 0 <= sq < SQUARES && b[sq] == EMPTY
  }

  lemma PlayFree(b: Board, sq: int, player: char)
    requires IsBoard(b) && CanPlay(b, sq) && IsPlayer(player)
    ensures IsBoard(b[sq := player]) && Free(b[sq := player]) == Free(b) - {sq} &&
            |Free(b[sq := player])| == |Free(b)| - 1
  {
    assert Free(b[sq := player]) == Free(b) - {sq};
    assert sq in Free(b);
  }

  /** The score of a finished game: winning early is better. */
  function Score(winner: char, move_nbr: int): int {
    if winner == 'X' then MAXIMUM_MOVES + 1 - move_nbr
    else if winner == 'O' then move_nbr - (MAXIMUM_MOVES + 1)
    else 0
  }

  // ---------- Plain minimax ----------

  /** What move `sq` of `player` is worth if both sides go on perfectly. */
  ghost function MoveValue(b: Board, player: char, sq: int, move_nbr: int): int
    requires IsBoard(b) && IsPlayer(player) && CanPlay(b, sq)
    decreases |Free(b)|, 0
  {
    PlayFree(b, sq, player);
    var b' := b[sq := player];
    if Winner(b') == EMPTY then Minimax(b', Other(player), move_nbr + 1) else Score(Winner(b'), move_nbr)
  }

  ghost function Better(player: char, s: int, t: int): int {
    if (player == 'X') == (s > t) then s else t
  }

  /** The best value among the moves to the first `k` squares. */
  ghost function BestAmong(b: Board, player: char, move_nbr: int, k: nat): Option<int>
    requires IsBoard(b) && IsPlayer(player) && k <= SQUARES
    decreases |Free(b)|, k + 1
  {
    if k == 0 then None
    else
      var r := BestAmong(b, player, move_nbr, k - 1);
      if b[k - 1] != EMPTY then r
      else
        var s := MoveValue(b, player, k - 1, move_nbr);
        if r.None? then Some(s) else Some(Better(player, s, r.value))
  }

  /** The value of a board that is not decided yet. */
  ghost function Minimax(b: Board, player: char, move_nbr: int): int
    requires IsBoard(b) && IsPlayer(player)
    decreases |Free(b)|, SQUARES + 2
  {
    var r := BestAmong(b, player, move_nbr, SQUARES);
    if r.None? then 0 else r.value
  }

  /** `v` is no worse for `player` than `w`. */
  ghost predicate NoWorse(player: char, v: int, w: int) {
    if player == 'X' then v >= w else v <= w
  }

  ghost predicate IsBest(b: Board, player: char, move_nbr: int, k: int, v: int)
    requires IsBoard(b) && IsPlayer(player)
  {
    (exists sq :: sq < k && CanPlay(b, sq) && MoveValue(b, player, sq, move_nbr) == v) &&
    (forall sq | sq < k && CanPlay(b, sq) :: NoWorse(player, v, MoveValue(b, player, sq, move_nbr)))
  }

  lemma {:induction false} BestAmongIsBest(b: Board, player: char, move_nbr: int, k: nat)
    requires IsBoard(b) && IsPlayer(player) && k <= SQUARES
    ensures var r := BestAmong(b, player, move_nbr, k);
            if r.Some? then IsBest(b, player, move_nbr, k, r.value) else forall sq | sq < k :: !CanPlay(b, sq)
  {
    if k > 0 {
      BestAmongIsBest(b, player, move_nbr, k - 1);
      var r := BestAmong(b, player, move_nbr, k);
      var r0 := BestAmong(b, player, move_nbr, k - 1);
      if b[k - 1] == EMPTY {
        assert CanPlay(b, k - 1);
        if r0.Some? {
          var sq :| sq < k - 1 && CanPlay(b, sq) && MoveValue(b, player, sq, move_nbr) == r0.value;
          assert r.value == MoveValue(b, player, k - 1, move_nbr) || r.value == MoveValue(b, player, sq, move_nbr);
        }
      }
    }
  }

  /** On an undecided board minimax is attained by some move and no move is better. */
  lemma MinimaxIsBest(b: Board, player: char, move_nbr: int)
    requires IsBoard(b) && IsPlayer(player) && Winner(b) == EMPTY
    ensures IsBest(b, player, move_nbr, SQUARES, Minimax(b, player, move_nbr))
  {
    BestAmongIsBest(b, player, move_nbr, SQUARES);
    NotFull(b);
  }

  lemma NotFull(b: Board)
    requires IsBoard(b) && Winner(b) == EMPTY
    ensures exists sq :: CanPlay(b, sq)
  {
    NoEmptyRow(b, 0);
    assert EMPTY in b;
    var sq :| 0 <= sq < |b| && b[sq] == EMPTY;
    assert CanPlay(b, sq);
  }

  lemma {:induction false} NoEmptyRow(b: Board, r: nat)
    requires |b| == SQUARES
    ensures RowWinner(b, r) != Some(EMPTY)
    decreases 8 - r
  {
    if r < 8 { NoEmptyRow(b, r + 1); }
  }

  // ---------- The program ----------

  ghost predicate OwnsRow(b: Board, player: char)
    requires |b| == SQUARES
  {
    exists r :: 0 <= r < 8 && HasRow(b, r, player)
  }

  lemma {:induction false} RowWinnerMeans(b: Board, r: nat)
    requires IsBoard(b) && r <= 8
    ensures match RowWinner(b, r)
            case Some(p) => IsPlayer(p) && OwnsRow(b, p)
            case None => forall i, p | r <= i < 8 && IsPlayer(p) :: !HasRow(b, i, p)
    decreases 8 - r
  {
    if r < 8 {
      RowWinnerMeans(b, r + 1);
      var c := b[THREE_IN_A_ROW[r][0]];
      if c != EMPTY && HasRow(b, r, c) { assert OwnsRow(b, c); }
    }
  }

  /** A winner is a player who owns a row; without one the game goes on exactly as long as a square is free. */
  lemma WinnerMeans(b: Board)
    requires IsBoard(b)
    ensures IsPlayer(Winner(b)) ==> OwnsRow(b, Winner(b))
    ensures IsPlayer(Winner(b)) <==> OwnsRow(b, 'X') || OwnsRow(b, 'O')
    ensures Winner(b) == EMPTY <==> !OwnsRow(b, 'X') && !OwnsRow(b, 'O') && exists sq :: CanPlay(b, sq)
    ensures Winner(b) == 'C' <==> !OwnsRow(b, 'X') && !OwnsRow(b, 'O') && forall sq :: !CanPlay(b, sq)
  {
    RowWinnerMeans(b, 0);
    hide HasRow, RowWinner;
    if EMPTY in b {
      var sq :| 0 <= sq < |b| && b[sq] == EMPTY;
      assert CanPlay(b, sq);
    } else {
      forall sq ensures !CanPlay(b, sq) {
        assert 0 <= sq < |b| ==> b[sq] in b;
      }
    }
  }

  /** The rows are the lines of the board: three across, three down, and the two diagonals. */
  lemma RowsAreLines(b: Board, player: char)
    requires |b| == SQUARES
    ensures OwnsRow(b, player) <==>
            (b[0] == b[1] == b[2] == player) || (b[3] == b[4] == b[5] == player) || (b[6] == b[7] == b[8] == player) ||
            (b[0] == b[3] == b[6] == player) || (b[1] == b[4] == b[7] == player) || (b[2] == b[5] == b[8] == player) ||
            (b[0] == b[4] == b[8] == player) || (b[2] == b[4] == b[6] == player)
  {
    assert HasRow(b, 0, player) <==> b[0] == b[1] == b[2] == player;
    assert HasRow(b, 1, player) <==> b[3] == b[4] == b[5] == player;
    assert HasRow(b, 2, player) <==> b[6] == b[7] == b[8] == player;
    assert HasRow(b, 3, player) <==> b[0] == b[3] == b[6] == player;
    assert HasRow(b, 4, player) <==> b[1] == b[4] == b[7] == player;
    assert HasRow(b, 5, player) <==> b[2] == b[5] == b[8] == player;
    assert HasRow(b, 6, player) <==> b[0] == b[4] == b[8] == player;
    assert HasRow(b, 7, player) <==> b[2] == b[4] == b[6] == player;
    hide HasRow;
    if OwnsRow(b, player) {
      var r :| 0 <= r < 8 && HasRow(b, r, player);
      assert r in {0, 1, 2, 3, 4, 5, 6, 7};
    }
  }

  /** A move adds rows for the player who moves only. */
  lemma MoveRows(b: Board, sq: int, player: char)
    requires IsBoard(b) && CanPlay(b, sq) && IsPlayer(player)
    ensures IsBoard(b[sq := player])
    ensures OwnsRow(b, player) ==> OwnsRow(b[sq := player], player)
    ensures OwnsRow(b[sq := player], Other(player)) ==> OwnsRow(b, Other(player))
  {
    PlayFree(b, sq, player);
    var b', other := b[sq := player], Other(player);
    if OwnsRow(b, player) {
      var r :| 0 <= r < 8 && HasRow(b, r, player);
      assert HasRow(b', r, player);
    }
    if OwnsRow(b', other) {
      var r :| 0 <= r < 8 && HasRow(b', r, other);
      assert HasRow(b, r, other);
    }
  }

  /** `Winner`. */
  method FindWinner(board: array<char>) returns (w: char)
    requires board.Length == SQUARES
    ensures w == Winner(board[..])
  {
    var i := 0;
    while i < 8
      invariant 0 <= i <= 8 && RowWinner(board[..], i) == RowWinner(board[..], 0)
    {
      var possible_winner := board[THREE_IN_A_ROW[i][0]];
      if possible_winner != EMPTY && possible_winner == board[THREE_IN_A_ROW[i][1]] &&
         possible_winner == board[THREE_IN_A_ROW[i][2]] {
        return possible_winner;
      }
      i := i + 1;
    }
    for j := 0 to SQUARES
      invariant EMPTY !in board[..j]
    {
      if board[j] == EMPTY {
        assert board[..][j] == EMPTY;
        return EMPTY;
      }
    }
    assert board[..SQUARES] == board[..];
    return 'C';
  }

  method Play(board: array<char>, square: int, player: char)
    requires 0 <= square < board.Length
    modifies board
    ensures board[..] == old(board[..])[square := player]
  {
    board[square] := player;
  }

  // ---------- Move ordering ----------

  ghost function Pieces(b: Board, r: nat, player: char, j: nat): nat
    requires |b| == SQUARES && r < 8 && j <= 3
  {
    if j == 0 then 0 else Pieces(b, r, player, j - 1) + if b[THREE_IN_A_ROW[r][j - 1]] == player then 1 else 0
  }

  ghost function RowScore(b: Board, r: nat, player: char): int
    requires |b| == SQUARES && r < 8
  {
    PiecesFit(b, r, player, 3);
    PiecesFit(b, r, Other(player), 3);
    HEURISTIC_ARRAY[Pieces(b, r, player, 3)][Pieces(b, r, Other(player), 3)]
  }

  lemma {:induction false} PiecesFit(b: Board, r: nat, player: char, j: nat)
    requires |b| == SQUARES && r < 8 && j <= 3
    ensures Pieces(b, r, player, j) <= j
  {
    if j > 0 { PiecesFit(b, r, player, j - 1); }
  }

  /** How promising the board looks for `player`, over the first `k` rows. */
  ghost function Heuristic(b: Board, player: char, k: nat): int
    requires |b| == SQUARES && k <= 8
  {
    if k == 0 then 0 else Heuristic(b, player, k - 1) + RowScore(b, k - 1, player)
  }

  /** What a line of squares `x`, `y`, `z` counts: nothing once both players are in it, else ten, a hundred or a
      thousand for one, two or three pieces, for or against `player`. */
  ghost function LineScore(x: char, y: char, z: char, player: char): int {
    var own := player in [x, y, z];
    var theirs := (if player == 'X' then 'O' else 'X') in [x, y, z];
    if own == theirs then 0
    else
      var sign, c := if own then 1 else -1, if own then player else if player == 'X' then 'O' else 'X';
      if x == y == z then sign * 1000
      else if (x == y == c) || (x == z == c) || (y == z == c) then sign * 100
      else sign * 10
  }

  lemma RowScoreIs(b: Board, r: nat, player: char)
    requires IsBoard(b) && r < 8 && IsPlayer(player)
    ensures RowScore(b, r, player) ==
            LineScore(b[THREE_IN_A_ROW[r][0]], b[THREE_IN_A_ROW[r][1]], b[THREE_IN_A_ROW[r][2]], player)
  {
    PiecesAre(b, r, player);
    PiecesAre(b, r, Other(player));
    hide Pieces;
  }

  lemma PiecesAre(b: Board, r: nat, player: char)
    requires |b| == SQUARES && r < 8
    ensures Pieces(b, r, player, 3) == (if b[THREE_IN_A_ROW[r][0]] == player then 1 else 0) +
                                       (if b[THREE_IN_A_ROW[r][1]] == player then 1 else 0) +
                                       (if b[THREE_IN_A_ROW[r][2]] == player then 1 else 0)
  {
    assert Pieces(b, r, player, 1) == Pieces(b, r, player, 0) + if b[THREE_IN_A_ROW[r][0]] == player then 1 else 0;
    assert Pieces(b, r, player, 2) == Pieces(b, r, player, 1) + if b[THREE_IN_A_ROW[r][1]] == player then 1 else 0;
  }

  /** The heuristic adds up the eight lines. */
  lemma HeuristicIs(b: Board, player: char)
    requires IsBoard(b) && IsPlayer(player)
    ensures Heuristic(b, player, 8) ==
            LineScore(b[0], b[1], b[2], player) + LineScore(b[3], b[4], b[5], player) +
            LineScore(b[6], b[7], b[8], player) + LineScore(b[0], b[3], b[6], player) +
            LineScore(b[1], b[4], b[7], player) + LineScore(b[2], b[5], b[8], player) +
            LineScore(b[0], b[4], b[8], player) + LineScore(b[2], b[4], b[6], player)
  {
    RowScoreIs(b, 0, player);
    RowScoreIs(b, 1, player);
    RowScoreIs(b, 2, player);
    RowScoreIs(b, 3, player);
    RowScoreIs(b, 4, player);
    RowScoreIs(b, 5, player);
    RowScoreIs(b, 6, player);
    RowScoreIs(b, 7, player);
    hide RowScore, LineScore;
    Added(b, player, 2);
    Added(b, player, 5);
    Added(b, player, 8);
  }

  lemma Added(b: Board, player: char, k: nat)
    requires |b| == SQUARES && 2 <= k <= 8
    ensures Heuristic(b, player, k) ==
            (if k == 2 then 0 else Heuristic(b, player, k - 3) + RowScore(b, k - 3, player)) +
            RowScore(b, k - 2, player) + RowScore(b, k - 1, player)
  {
    assert Heuristic(b, player, k) == Heuristic(b, player, k - 1) + RowScore(b, k - 1, player);
    assert Heuristic(b, player, k - 1) == Heuristic(b, player, k - 2) + RowScore(b, k - 2, player);
    hide RowScore;
  }

  method Evaluate(board: array<char>, player: char) returns (heuristic: int)
    requires board.Length == SQUARES && IsPlayer(player)
    ensures heuristic == Heuristic(board[..], player, 8)
  {
    heuristic := 0;
    for i := 0 to 8
      invariant heuristic == Heuristic(board[..], player, i)
    {
      var players, others := 0, 0;
      for j := 0 to 3
        invariant 0 <= players <= j && 0 <= others <= j
        invariant players == Pieces(board[..], i, player, j) && others == Pieces(board[..], i, Other(player), j)
      {
        var piece := board[THREE_IN_A_ROW[i][j]];
        if piece == player {
          players := players + 1;
        } else if piece == Other(player) {
          others := others + 1;
        }
      }
      heuristic := heuristic + HEURISTIC_ARRAY[players][others];
    }
  }

  datatype MoveHeuristic = MoveHeuristic(square: int, heuristic: int)

  /** Free squares among the first `k`, with their heuristics. */
  ghost predicate Listed(b: Board, player: char, list: seq<MoveHeuristic>, k: int)
    requires |b| == SQUARES
  {
    forall i | 0 <= i < |list| ::
      0 <= list[i].square < k && CanPlay(b, list[i].square) &&
      list[i].heuristic == Heuristic(b[list[i].square := player], player, 8)
  }

  /** Each square at most once, better heuristics first. */
  ghost predicate Descending(list: seq<MoveHeuristic>) {
    forall i, j | 0 <= i < j < |list| :: list[i].square != list[j].square && list[i].heuristic >= list[j].heuristic
  }

  ghost predicate Complete(b: Board, list: seq<MoveHeuristic>, k: int) {
    forall sq | 0 <= sq < k && CanPlay(b, sq) :: exists i :: 0 <= i < |list| && list[i].square == sq
  }

  /** The first `k` squares that are free, each once, best heuristic first. */
  ghost predicate Ranked(b: Board, player: char, list: seq<MoveHeuristic>, k: int)
    requires |b| == SQUARES
  {
    Listed(b, player, list, k) && Descending(list) && Complete(b, list, k)
  }

  ghost function Inserted(s: seq<MoveHeuristic>, k: nat, move: MoveHeuristic): seq<MoveHeuristic>
    requires k <= |s|
  {
    s[..k] + [move] + s[k..]
  }

  /** Inserts a move into the ranked list, behind all moves that are no worse. */
  method InsertMove(list: array<MoveHeuristic>, moves: int, move: MoveHeuristic) returns (ghost k: nat)
    requires 0 <= moves < list.Length && Falling(list[..moves])
    modifies list
    ensures k <= moves && list[..moves + 1] == Inserted(old(list[..moves]), k, move)
    ensures (forall i | 0 <= i < k :: old(list[..moves])[i].heuristic >= move.heuristic) &&
            forall i | k <= i < moves :: old(list[..moves])[i].heuristic < move.heuristic
  {
    hide Inserted, Falling;
    ghost var was := list[..moves];
    var j := moves - 1;
    while j >= 0 && list[j].heuristic < move.heuristic
      invariant -1 <= j < moves
      invariant forall i | 0 <= i <= j :: list[i] == was[i]
      invariant forall i | j < i < moves :: list[i + 1] == was[i]
      invariant forall i | j < i < moves :: was[i].heuristic < move.heuristic
    {
      list[j + 1] := list[j];
      j := j - 1;
    }
    FrontNoWorse(was, j, move);
    list[j + 1] := move;
    k := j + 1;
    InsertedAt(was, k, move, list[..moves + 1]);
  }

  ghost predicate Falling(s: seq<MoveHeuristic>) {
    forall i, j | 0 <= i < j < |s| :: s[i].heuristic >= s[j].heuristic
  }

  lemma FrontNoWorse(s: seq<MoveHeuristic>, j: int, move: MoveHeuristic)
    requires Falling(s) && -1 <= j < |s| && (j >= 0 ==> s[j].heuristic >= move.heuristic)
    ensures forall i | 0 <= i <= j :: s[i].heuristic >= move.heuristic
  {
  }

  lemma InsertedAt(s: seq<MoveHeuristic>, k: nat, move: MoveHeuristic, t: seq<MoveHeuristic>)
    requires k <= |s| && |t| == |s| + 1 && t[k] == move
    requires forall i | 0 <= i < k :: t[i] == s[i]
    requires forall i | k <= i < |s| :: t[i + 1] == s[i]
    ensures t == Inserted(s, k, move)
  {
    var u := Inserted(s, k, move);
    forall i | 0 <= i < |t| ensures t[i] == u[i] {
      if i > k { assert t[i - 1 + 1] == s[i - 1]; }
    }
  }

  lemma RankedInsert(b: Board, player: char, list: seq<MoveHeuristic>, k: int, p: nat)
    requires |b| == SQUARES && Ranked(b, player, list, k) && 0 <= k < SQUARES && CanPlay(b, k) && p <= |list|
    requires var h := Heuristic(b[k := player], player, 8);
             (forall i | 0 <= i < p :: list[i].heuristic >= h) && forall i | p <= i < |list| :: list[i].heuristic < h
    ensures Ranked(b, player, Inserted(list, p, MoveHeuristic(k, Heuristic(b[k := player], player, 8))), k + 1)
  {
    var m := MoveHeuristic(k, Heuristic(b[k := player], player, 8));
    hide Heuristic;
    InsertedIs(list, p, m);
    hide Inserted;
    var u := Inserted(list, p, m);
    assert Descending(u) by {
      hide Complete;
    }
    assert Complete(b, u, k + 1) by {
      hide Listed, Descending;
      StillComplete(b, list, k, p, m);
    }
  }

  lemma InsertedIs(s: seq<MoveHeuristic>, k: nat, move: MoveHeuristic)
    requires k <= |s|
    ensures |Inserted(s, k, move)| == |s| + 1
    ensures forall i | 0 <= i <= |s| ::
              Inserted(s, k, move)[i] == if i < k then s[i] else if i == k then move else s[i - 1]
  {
  }

  lemma StillComplete(b: Board, list: seq<MoveHeuristic>, k: int, p: nat, m: MoveHeuristic)
    requires Complete(b, list, k) && p <= |list| && m.square == k
    ensures Complete(b, Inserted(list, p, m), k + 1)
  {
    var u := Inserted(list, p, m);
    InsertedIs(list, p, m);
    forall sq | 0 <= sq < k + 1 && CanPlay(b, sq) ensures exists i :: 0 <= i < |u| && u[i].square == sq {
      if sq == k {
        assert u[p].square == k;
      } else {
        var i :| 0 <= i < |list| && list[i].square == sq;
        assert u[if i < p then i else i + 1].square == sq;
      }
    }
  }

  /** Lists the free squares, most promising first. */
  method OrderMoves(board: array<char>, player: char) returns (list: array<MoveHeuristic>, moves: int)
    requires board.Length == SQUARES && IsPlayer(player)
    modifies board
    ensures fresh(list) && list.Length == SQUARES && 0 <= moves <= SQUARES && board[..] == old(board[..])
    ensures Ranked(board[..], player, list[..moves], SQUARES)
  {
    hide Ranked, Heuristic;
    ghost var b := board[..];
    list := new MoveHeuristic[SQUARES](_ => MoveHeuristic(0, 0));
    moves := 0;
    NoneRanked(b, player);
    assert list[..moves] == [];
    for i := 0 to SQUARES
      invariant board[..] == b && 0 <= moves <= i && Ranked(b, player, list[..moves], i)
      invariant fresh(list)
    {
      if board[i] == EMPTY {
        Play(board, i, player);
        var heuristic := Evaluate(board, player);
        Play(board, i, EMPTY);
        assert board[..] == b;
        InOrder(b, player, list[..moves], i);
        ghost var was := list[..moves];
        assert forall x, y | 0 <= x < y < moves :: list[x].heuristic == was[x].heuristic && list[y] == was[y];
        ghost var k := InsertMove(list, moves, MoveHeuristic(i, heuristic));
        RankedInsert(b, player, was, i, k);
        moves := moves + 1;
      } else {
        RankedSkip(b, player, list[..moves], i);
      }
    }
  }

  lemma NoneRanked(b: Board, player: char)
    requires |b| == SQUARES
    ensures Ranked(b, player, [], 0)
  {
  }

  lemma InOrder(b: Board, player: char, list: seq<MoveHeuristic>, k: int)
    requires |b| == SQUARES && Ranked(b, player, list, k)
    ensures Falling(list)
  {
  }

  lemma RankedSkip(b: Board, player: char, list: seq<MoveHeuristic>, k: int)
    requires |b| == SQUARES && Ranked(b, player, list, k) && !CanPlay(b, k)
    ensures Ranked(b, player, list, k + 1)
  {
  }

  // ---------- Alpha-beta search ----------

  /** `score` is the value `m` when that lies inside the window, and else lies between `m` and the window. */
  ghost predicate Reports(m: int, score: int, alpha: int, beta: int) {
    (alpha < m < beta ==> score == m) && (m <= alpha ==> m <= score <= alpha) && (m >= beta ==> beta <= score <= m)
  }

  /** The square returned: none if no move gets `player` past the near side of the window, else a move
      that does, and a perfect one unless it already gets past the far side. */
  ghost predicate GoodSquare(b: Board, player: char, move_nbr: int, alpha: int, beta: int, sq: int)
    requires IsBoard(b) && IsPlayer(player)
  {
    var m := Minimax(b, player, move_nbr);
    if (if player == 'X' then m <= alpha else m >= beta) then sq == -1
    else
      CanPlay(b, sq) &&
      var v := MoveValue(b, player, sq, move_nbr);
      if alpha < m < beta then v == m else if player == 'X' then v >= beta else v <= alpha
  }

  /** After the moves `tried`, `best` is the best of them if it improves the window at all. */
  ghost predicate SoFar(b: Board, player: char, move_nbr: int, tried: seq<MoveHeuristic>,
                        alpha0: int, beta0: int, alpha: int, beta: int, best: int)
    requires IsBoard(b) && IsPlayer(player)
  {
    (forall i | 0 <= i < |tried| :: CanPlay(b, tried[i].square)) && (best != -1 ==> CanPlay(b, best)) && alpha < beta &&
    if player == 'X' then
      beta == beta0 && (forall i | 0 <= i < |tried| :: MoveValue(b, player, tried[i].square, move_nbr) <= alpha) &&
      (if best == -1 then alpha == alpha0 else alpha0 < alpha == MoveValue(b, player, best, move_nbr))
    else
      alpha == alpha0 && (forall i | 0 <= i < |tried| :: MoveValue(b, player, tried[i].square, move_nbr) >= beta) &&
      (if best == -1 then beta == beta0 else beta0 > beta == MoveValue(b, player, best, move_nbr))
  }

  /** All moves tried. */
  lemma AllTried(b: Board, player: char, move_nbr: int, tried: seq<MoveHeuristic>,
                 alpha0: int, beta0: int, alpha: int, beta: int, best: int)
    requires IsBoard(b) && IsPlayer(player) && Winner(b) == EMPTY && alpha0 < beta0
    requires SoFar(b, player, move_nbr, tried, alpha0, beta0, alpha, beta, best) && Complete(b, tried, SQUARES)
    ensures Reports(Minimax(b, player, move_nbr), if player == 'X' then alpha else beta, alpha0, beta0)
    ensures GoodSquare(b, player, move_nbr, alpha0, beta0, best)
  {
    MinimaxIsBest(b, player, move_nbr);
    var m := Minimax(b, player, move_nbr);
    hide Minimax, MoveValue, Winner;
    var sq :| sq < SQUARES && CanPlay(b, sq) && MoveValue(b, player, sq, move_nbr) == m;
    var i :| 0 <= i < |tried| && tried[i].square == sq;
    assert best != -1 ==> NoWorse(player, m, MoveValue(b, player, best, move_nbr));
  }

  /** Move `sq` of value `v` scored `score` gets past the far side of the window: the rest is cut off. */
  lemma CutOff(b: Board, player: char, move_nbr: int, tried: seq<MoveHeuristic>,
               alpha0: int, beta0: int, alpha: int, beta: int, best: int, sq: int, score: int)
    requires IsBoard(b) && IsPlayer(player) && Winner(b) == EMPTY && CanPlay(b, sq)
    requires SoFar(b, player, move_nbr, tried, alpha0, beta0, alpha, beta, best)
    requires Reports(MoveValue(b, player, sq, move_nbr), score, alpha, beta)
    requires if player == 'X' then score >= beta else score <= alpha
    ensures Reports(Minimax(b, player, move_nbr), score, alpha0, beta0) &&
            GoodSquare(b, player, move_nbr, alpha0, beta0, sq)
  {
    MinimaxIsBest(b, player, move_nbr);
    hide Minimax, MoveValue, Winner;
    assert NoWorse(player, Minimax(b, player, move_nbr), MoveValue(b, player, sq, move_nbr));
  }

  /** One more move tried. */
  lemma TryNext(b: Board, player: char, move_nbr: int, tried: seq<MoveHeuristic>,
                alpha0: int, beta0: int, alpha: int, beta: int, best: int, move: MoveHeuristic, score: int,
                alpha': int, beta': int, best': int)
    requires IsBoard(b) && IsPlayer(player) && CanPlay(b, move.square)
    requires SoFar(b, player, move_nbr, tried, alpha0, beta0, alpha, beta, best)
    requires Reports(MoveValue(b, player, move.square, move_nbr), score, alpha, beta)
    requires if player == 'X' then
               score < beta && beta' == beta &&
               (if score > alpha then alpha' == score && best' == move.square else alpha' == alpha && best' == best)
             else
               score > alpha && alpha' == alpha &&
               (if score < beta then beta' == score && best' == move.square else beta' == beta && best' == best)
    ensures SoFar(b, player, move_nbr, tried + [move], alpha0, beta0, alpha', beta', best')
  {
    hide MoveValue;
  }

  lemma WinnerKinds(b: Board)
    requires IsBoard(b)
    ensures Winner(b) in {'X', 'O', 'C', EMPTY}
  {
    WinnerPlays(b, 0);
  }

  lemma {:induction false} WinnerPlays(b: Board, r: nat)
    requires IsBoard(b)
    ensures RowWinner(b, r) in {None, Some('X'), Some('O')}
    decreases 8 - r
  {
    if r < 8 { WinnerPlays(b, r + 1); }
  }

  lemma ExactReports(v: int, alpha: int, beta: int)
    requires alpha < beta
    ensures Reports(v, v, alpha, beta)
  {
  }

  /** Plays move `sq`, gets its score, and takes it back. */
  method TryMove(board: array<char>, player: char, sq: int, move_nbr: int, alpha: int, beta: int)
      returns (score: int, square: int)
    requires board.Length == SQUARES && IsBoard(board[..]) && IsPlayer(player) && CanPlay(board[..], sq) && alpha < beta
    modifies board
    ensures board[..] == old(board[..]) && Reports(MoveValue(board[..], player, sq, move_nbr), score, alpha, beta)
    decreases |Free(board[..])|, 0
  {
    hide Winner, RowWinner, Minimax, Reports;
    ghost var b := board[..];
    PlayFree(b, sq, player);
    Play(board, sq, player);
    square := -1;
    WinnerKinds(board[..]);
    var w := FindWinner(board);
    if w == 'X' {
      score := MAXIMUM_MOVES + 1 - move_nbr;
    } else if w == 'O' {
      score := move_nbr - (MAXIMUM_MOVES + 1);
    } else if w == 'C' {
      score := 0;
    } else {
      score, square := BestMove(board, Other(player), move_nbr + 1, alpha, beta);
    }
    ExactReports(score, alpha, beta);
    assert Reports(MoveValue(b, player, sq, move_nbr), score, alpha, beta);
    Play(board, sq, EMPTY);
    assert board[..] == b;
  }

  /** Alpha-beta search: the score tells the minimax value as far as the window asks for it. */
  method BestMove(board: array<char>, player: char, move_nbr: int, alpha0: int, beta0: int)
      returns (score: int, square: int)
    requires board.Length == SQUARES && IsBoard(board[..]) && IsPlayer(player) && Winner(board[..]) == EMPTY &&
             alpha0 < beta0
    modifies board
    ensures board[..] == old(board[..]) && Reports(Minimax(board[..], player, move_nbr), score, alpha0, beta0)
    ensures GoodSquare(board[..], player, move_nbr, alpha0, beta0, square)
    decreases |Free(board[..])|, 1
  {
    hide Winner, RowWinner, Minimax, Reports, MoveValue, GoodSquare, SoFar, Ranked;
    ghost var b := board[..];
    var best_square := -1;
    var alpha, beta := alpha0, beta0;
    var move_heuristic, moves := OrderMoves(board, player);
    ghost var list := move_heuristic[..moves];
    NothingTried(b, player, move_nbr, alpha, beta);
    for i := 0 to moves
      invariant board[..] == b && move_heuristic[..moves] == list
      invariant SoFar(b, player, move_nbr, list[..i], alpha0, beta0, alpha, beta, best_square)
    {
      var sq := move_heuristic[i].square;
      assert list[i].square == sq;
      InList(b, player, list, i);
      Window(b, player, move_nbr, list[..i], alpha0, beta0, alpha, beta, best_square);
      score, square := TryMove(board, player, sq, move_nbr, alpha, beta);
      ghost var alpha1, beta1, best1 := alpha, beta, best_square;
      if player == 'X' {
        if score >= beta {
          CutOff(b, player, move_nbr, list[..i], alpha0, beta0, alpha, beta, best_square, sq, score);
          return score, sq;
        } else if score > alpha {
          alpha, best_square := score, sq;
        }
      } else {
        if score <= alpha {
          CutOff(b, player, move_nbr, list[..i], alpha0, beta0, alpha, beta, best_square, sq, score);
          return score, sq;
        } else if score < beta {
          beta, best_square := score, sq;
        }
      }
      TryNext(b, player, move_nbr, list[..i], alpha0, beta0, alpha1, beta1, best1, list[i], score, alpha, beta,
              best_square);
      assert list[..i + 1] == list[..i] + [list[i]];
    }
    assert list[..moves] == list;
    InFull(b, player, list);
    AllTried(b, player, move_nbr, list, alpha0, beta0, alpha, beta, best_square);
    return if player == 'X' then alpha else beta, best_square;
  }

  lemma NothingTried(b: Board, player: char, move_nbr: int, alpha: int, beta: int)
    requires IsBoard(b) && IsPlayer(player) && alpha < beta
    ensures SoFar(b, player, move_nbr, [], alpha, beta, alpha, beta, -1)
  {
  }

  lemma InList(b: Board, player: char, list: seq<MoveHeuristic>, i: int)
    requires |b| == SQUARES && Ranked(b, player, list, SQUARES) && 0 <= i < |list|
    ensures CanPlay(b, list[i].square)
  {
  }

  lemma InFull(b: Board, player: char, list: seq<MoveHeuristic>)
    requires |b| == SQUARES && Ranked(b, player, list, SQUARES)
    ensures Complete(b, list, SQUARES)
  {
  }

  lemma Window(b: Board, player: char, move_nbr: int, tried: seq<MoveHeuristic>,
               alpha0: int, beta0: int, alpha: int, beta: int, best: int)
    requires IsBoard(b) && IsPlayer(player) && SoFar(b, player, move_nbr, tried, alpha0, beta0, alpha, beta, best)
    ensures alpha < beta
  {
  }

  // ---------- The computer's moves and whole games ----------

  /** The move number that belongs to a board. */
  ghost predicate InStep(b: Board, move_nbr: int) {
    move_nbr == SQUARES + 1 - |Free(b)| && move_nbr >= 1
  }

  /** With the right move number all values lie inside the full window. */
  lemma {:induction false} InsideWindow(b: Board, player: char, move_nbr: int)
    requires IsBoard(b) && IsPlayer(player) && Winner(b) == EMPTY && InStep(b, move_nbr)
    ensures -INFINITY < Minimax(b, player, move_nbr) < INFINITY
    decreases |Free(b)|
  {
    MinimaxIsBest(b, player, move_nbr);
    var m := Minimax(b, player, move_nbr);
    var sq :| sq < SQUARES && CanPlay(b, sq) && MoveValue(b, player, sq, move_nbr) == m;
    PlayFree(b, sq, player);
    var b' := b[sq := player];
    if Winner(b') == EMPTY {
      InsideWindow(b', Other(player), move_nbr + 1);
    }
  }

  // ---------- What the scores mean ----------

  /** What a move is worth, with `free` squares free before it: as many as are free if it completes a row, negative
      for O, nothing if it fills the board, and else less than that, and as much as the board it leads to. */
  lemma MoveIsWorth(b: Board, player: char, sq: int, move_nbr: int)
    requires IsBoard(b) && IsPlayer(player) && Winner(b) == EMPTY && CanPlay(b, sq) && move_nbr == 10 - |Free(b)|
    ensures IsBoard(b[sq := player]) && |Free(b[sq := player])| == |Free(b)| - 1
    ensures var b', v, other := b[sq := player], MoveValue(b, player, sq, move_nbr), if player == 'X' then 'O' else 'X';
            if OwnsRow(b', player) then v == if player == 'X' then |Free(b)| else -|Free(b)|
            else
              -|Free(b)| < v < |Free(b)| && !OwnsRow(b', other) &&
              v == if |Free(b)| == 1 then 0 else Minimax(b', other, move_nbr + 1)
  {
    PlayFree(b, sq, player);
    MoveRows(b, sq, player);
    WinnerMeans(b);
    var b' := b[sq := player];
    WinnerMeans(b');
    NoneFree(b');
    if Winner(b') == EMPTY { MinimaxBound(b', Other(player), move_nbr + 1); }
  }

  lemma NoneFree(b: Board)
    requires IsBoard(b)
    ensures |Free(b)| == 0 <==> forall sq :: !CanPlay(b, sq)
  {
    if |Free(b)| == 0 {
      forall sq ensures !CanPlay(b, sq) {
        assert CanPlay(b, sq) ==> sq in Free(b);
      }
    } else {
      var sq :| sq in Free(b);
      assert CanPlay(b, sq);
    }
  }

  lemma {:induction false} MinimaxBound(b: Board, player: char, move_nbr: int)
    requires IsBoard(b) && IsPlayer(player) && Winner(b) == EMPTY && move_nbr == 10 - |Free(b)|
    ensures -|Free(b)| <= Minimax(b, player, move_nbr) <= |Free(b)| && |Free(b)| >= 1
    decreases |Free(b)|, 1
  {
    MinimaxIsBest(b, player, move_nbr);
    hide Minimax, MoveValue, Winner;
    var sq :| sq < SQUARES && CanPlay(b, sq) && MoveValue(b, player, sq, move_nbr) == Minimax(b, player, move_nbr);
    MoveBound(b, player, sq, move_nbr);
  }

  lemma MoveBound(b: Board, player: char, sq: int, move_nbr: int)
    requires IsBoard(b) && IsPlayer(player) && Winner(b) == EMPTY && CanPlay(b, sq) && move_nbr == 10 - |Free(b)|
    ensures -|Free(b)| <= MoveValue(b, player, sq, move_nbr) <= |Free(b)| && |Free(b)| >= 1
    decreases |Free(b)|, 0
  {
    PlayFree(b, sq, player);
    var b' := b[sq := player];
    if Winner(b') == EMPTY { MinimaxBound(b', Other(player), move_nbr + 1); }
  }

  /** Minimax told without scores and move values: a row completed now is worth as many points as squares are free,
      counted for X, and nothing is worth more; the last move of a tie is worth nothing; and otherwise the value is
      the best, for the player, of the values of the boards the moves lead to. */
  lemma MinimaxIs(b: Board, player: char, move_nbr: int)
    requires IsBoard(b) && IsPlayer(player) && Winner(b) == EMPTY && move_nbr == 10 - |Free(b)|
    ensures var v, other := Minimax(b, player, move_nbr), if player == 'X' then 'O' else 'X';
            if exists sq :: CanPlay(b, sq) && OwnsRow(b[sq := player], player) then
              v == if player == 'X' then |Free(b)| else -|Free(b)|
            else
              -|Free(b)| < v < |Free(b)| &&
              if |Free(b)| == 1 then v == 0
              else
                (forall sq | CanPlay(b, sq) ::
                   IsBoard(b[sq := player]) &&
                   var w := Minimax(b[sq := player], other, move_nbr + 1); if player == 'X' then v >= w else v <= w) &&
                exists sq :: CanPlay(b, sq) && IsBoard(b[sq := player]) &&
                             v == Minimax(b[sq := player], other, move_nbr + 1)
  {
    MinimaxIsBest(b, player, move_nbr);
    hide Minimax, MoveValue, Winner, OwnsRow;
    forall sq | CanPlay(b, sq) ensures IsBoard(b[sq := player]) {
      MoveIsWorth(b, player, sq, move_nbr);
    }
    var v := Minimax(b, player, move_nbr);
    var best :| best < SQUARES && CanPlay(b, best) && MoveValue(b, player, best, move_nbr) == v;
    MoveIsWorth(b, player, best, move_nbr);
    forall sq | CanPlay(b, sq)
      ensures var w := MoveValue(b, player, sq, move_nbr); if player == 'X' then v >= w else v <= w
      ensures OwnsRow(b[sq := player], player) ==> v == if player == 'X' then |Free(b)| else -|Free(b)|
      ensures !OwnsRow(b[sq := player], player) && |Free(b)| > 1 ==>
                MoveValue(b, player, sq, move_nbr) ==
                Minimax(b[sq := player], if player == 'X' then 'O' else 'X', move_nbr + 1)
    {
      MoveIsWorth(b, player, sq, move_nbr);
    }
  }

  /** The computer moves: onto a free square, to a perfect one, and to complete a row if that can be done. */
  method ComputerMove(board: array<char>, move_nbr: int) returns (square: int)
    requires board.Length == SQUARES && IsBoard(board[..]) && Winner(board[..]) == EMPTY && InStep(board[..], move_nbr)
    modifies board
    ensures CanPlay(old(board[..]), square) && board[..] == old(board[..])[square := 'X']
    ensures MoveValue(old(board[..]), 'X', square, move_nbr) == Minimax(old(board[..]), 'X', move_nbr)
    ensures (exists sq :: CanPlay(old(board[..]), sq) && OwnsRow(old(board[..])[sq := 'X'], 'X')) ==>
              OwnsRow(board[..], 'X')
  {
    hide Winner, Minimax, MoveValue, OwnsRow;
    ghost var b := board[..];
    InsideWindow(b, 'X', move_nbr);
    MinimaxIs(b, 'X', move_nbr);
    var score;
    score, square := BestMove(board, 'X', move_nbr, -INFINITY, INFINITY);
    MoveIsWorth(b, 'X', square, move_nbr);
    Play(board, square, 'X');
  }
}
