/** Whole games of tic-tac-toe (cheapos/tasks/ttt.c): the computer never loses. */
module TicTacToeGame {
  import opened Wrappers
  import opened TicTacToe

  // ---------- Boards on which X need not lose ----------

  /** With O to move: X has a row, or O has none and X can answer every move. */
  ghost predicate Safe(b: Board)
    requires IsBoard(b)
    decreases |Free(b)|
  {
    OwnsRow(b, 'X') ||
    (!OwnsRow(b, 'O') &&
     forall sq | CanPlay(b, sq) ::
       (PlayFree(b, sq, 'O'); Answered(b[sq := 'O'])))
  }

  ghost predicate HasFree(b: Board) {
    exists sq :: CanPlay(b, sq)
  }

  /** With X to move: X has a row, or O has none and, unless the board is full, some move is safe. */
  ghost predicate Answered(b: Board)
    requires IsBoard(b)
    decreases |Free(b)|
  {
    OwnsRow(b, 'X') ||
    (!OwnsRow(b, 'O') &&
     (HasFree(b) ==> exists sq :: CanPlay(b, sq) && (PlayFree(b, sq, 'X'); Safe(b[sq := 'X']))))
  }

  lemma AnsweredBy(b: Board, reply: int)
    requires IsBoard(b) && CanPlay(b, reply) && !OwnsRow(b, 'O') && IsBoard(b[reply := 'X']) && Safe(b[reply := 'X'])
    ensures Answered(b)
  {
  }

  lemma SafeWhen(b: Board)
    requires IsBoard(b) && !OwnsRow(b, 'O')
    requires forall sq | CanPlay(b, sq) :: IsBoard(b[sq := 'O']) && Answered(b[sq := 'O'])
    ensures Safe(b)
  {
  }

  lemma ReplyOf(b: Board) returns (reply: int)
    requires IsBoard(b) && Answered(b) && Winner(b) == EMPTY
    ensures CanPlay(b, reply) && IsBoard(b[reply := 'X']) && Safe(b[reply := 'X'])
  {
    WinnerMeans(b);
    assert HasFree(b);
    reply :| CanPlay(b, reply) && (PlayFree(b, reply, 'X'); Safe(b[reply := 'X']));
    PlayFree(b, reply, 'X');
  }

  /** On a safe board the minimax value is no loss for X. */
  lemma {:induction false} SafeIsNoLoss(b: Board, move_nbr: int)
    requires IsBoard(b) && Winner(b) == EMPTY && InStep(b, move_nbr)
    ensures Safe(b) ==> Minimax(b, 'O', move_nbr) >= 0
    ensures Answered(b) ==> Minimax(b, 'X', move_nbr) >= 0
    decreases |Free(b)|, 1
  {
    hide Minimax, MoveValue, Winner, Safe, Answered;
    MinimaxIsBest(b, 'O', move_nbr);
    MinimaxIsBest(b, 'X', move_nbr);
    if Safe(b) {
      var sq :| sq < SQUARES && CanPlay(b, sq) && MoveValue(b, 'O', sq, move_nbr) == Minimax(b, 'O', move_nbr);
      SafeMove(b, sq, move_nbr);
    }
    if Answered(b) {
      var sq := ReplyOf(b);
      SafeReply(b, sq, move_nbr);
    }
  }

  lemma SafeMove(b: Board, sq: int, move_nbr: int)
    requires IsBoard(b) && Winner(b) == EMPTY && InStep(b, move_nbr) && Safe(b) && CanPlay(b, sq)
    ensures MoveValue(b, 'O', sq, move_nbr) >= 0
    decreases |Free(b)|, 0
  {
    WinnerMeans(b);
    PlayFree(b, sq, 'O');
    MoveRows(b, sq, 'O');
    var b' := b[sq := 'O'];
    WinnerMeans(b');
    assert Answered(b') && !OwnsRow(b', 'X') && !OwnsRow(b', 'O');
    if Winner(b') == EMPTY { SafeIsNoLoss(b', move_nbr + 1); }
  }

  lemma SafeReply(b: Board, sq: int, move_nbr: int)
    requires IsBoard(b) && Winner(b) == EMPTY && InStep(b, move_nbr) && CanPlay(b, sq)
    requires IsBoard(b[sq := 'X']) && Safe(b[sq := 'X'])
    ensures MoveValue(b, 'X', sq, move_nbr) >= 0
    decreases |Free(b)|, 0
  {
    WinnerMeans(b);
    PlayFree(b, sq, 'X');
    MoveRows(b, sq, 'X');
    var b' := b[sq := 'X'];
    WinnerMeans(b');
    assert !OwnsRow(b', 'O');
    if Winner(b') == EMPTY { SafeIsNoLoss(b', move_nbr + 1); }
  }

  // ---------- Pairs of squares ----------

  ghost predicate InRow(pairs: seq<(int, int)>, k: int, r: int)
    requires 0 <= k && 0 <= r < 8
  {
    k < |pairs| && pairs[k].0 in THREE_IN_A_ROW[r] && pairs[k].1 in THREE_IN_A_ROW[r]
  }

  /** Row `r` has a square of X, or holds both squares of one of at most four pairs. */
  ghost predicate Guards(b: Board, pairs: seq<(int, int)>, r: int)
    requires |b| == SQUARES && 0 <= r < 8
  {
    b[THREE_IN_A_ROW[r][0]] == 'X' || b[THREE_IN_A_ROW[r][1]] == 'X' || b[THREE_IN_A_ROW[r][2]] == 'X' ||
    InRow(pairs, 0, r) || InRow(pairs, 1, r) || InRow(pairs, 2, r) || InRow(pairs, 3, r)
  }

  /** Both squares are free, or X has one. */
  ghost predicate Open(b: Board, p: (int, int)) {
    |b| == SQUARES && 0 <= p.0 < SQUARES && 0 <= p.1 < SQUARES && p.0 != p.1 &&
    ((b[p.0] == EMPTY && b[p.1] == EMPTY) || b[p.0] == 'X' || b[p.1] == 'X')
  }

  ghost predicate Apart(p: (int, int), q: (int, int)) {
    p.0 != q.0 && p.0 != q.1 && p.1 != q.0 && p.1 != q.1
  }

  /** No row can become one of O as long as X answers within the pairs. */
  ghost predicate Guarded(b: Board, pairs: seq<(int, int)>)
    requires |b| == SQUARES
  {
    (forall r | 0 <= r < 8 :: Guards(b, pairs, r)) &&
    (forall k | 0 <= k < |pairs| :: Open(b, pairs[k])) &&
    (forall k, l | 0 <= k < l < |pairs| :: Apart(pairs[k], pairs[l]))
  }

  /** Row `r` has a square of X or two free ones. */
  ghost predicate Loose(b: Board, r: int)
    requires |b| == SQUARES && 0 <= r < 8
  {
    var x, y, z := b[THREE_IN_A_ROW[r][0]], b[THREE_IN_A_ROW[r][1]], b[THREE_IN_A_ROW[r][2]];
    x == 'X' || y == 'X' || z == 'X' || (x == y == EMPTY) || (x == z == EMPTY) || (y == z == EMPTY)
  }

  ghost predicate AllLoose(b: Board)
    requires |b| == SQUARES
  {
    forall r | 0 <= r < 8 :: Loose(b, r)
  }

  lemma GuardedLoose(b: Board, pairs: seq<(int, int)>, r: int)
    requires IsBoard(b) && Guarded(b, pairs) && 0 <= r < 8
    ensures Loose(b, r)
  {
    assert Guards(b, pairs, r);
    var row := THREE_IN_A_ROW[r];
    if b[row[0]] != 'X' && b[row[1]] != 'X' && b[row[2]] != 'X' {
      var k := if InRow(pairs, 0, r) then 0 else if InRow(pairs, 1, r) then 1 else if InRow(pairs, 2, r) then 2 else 3;
      assert InRow(pairs, k, r) && Open(b, pairs[k]);
    }
  }

  lemma LooseAfter(b: Board, sq: int, r: int)
    requires IsBoard(b) && 0 <= r < 8 && Loose(b, r) && CanPlay(b, sq)
    ensures !HasRow(b, r, 'O') && !HasRow(b[sq := 'O'], r, 'O')
  {
  }

  /** O has no row, and none within one move. */
  lemma NoRowNear(b: Board)
    requires IsBoard(b) && AllLoose(b)
    ensures !OwnsRow(b, 'O')
    ensures forall sq | CanPlay(b, sq) :: IsBoard(b[sq := 'O']) && !OwnsRow(b[sq := 'O'], 'O')
  {
    forall r | 0 <= r < 8 ensures !HasRow(b, r, 'O') {
      assert Loose(b, r);
    }
    forall sq | CanPlay(b, sq) ensures IsBoard(b[sq := 'O']) && !OwnsRow(b[sq := 'O'], 'O') {
      PlayFree(b, sq, 'O');
      var b' := b[sq := 'O'];
      forall r | 0 <= r < 8 ensures !HasRow(b', r, 'O') {
        assert Loose(b, r);
        LooseAfter(b, sq, r);
      }
    }
  }

  /** The square to answer `sq`: its partner if that is free, else any free square. */
  lemma Partner(b: Board, pairs: seq<(int, int)>, sq: int) returns (reply: int)
    requires IsBoard(b) && Guarded(b, pairs) && CanPlay(b, sq) && HasFree(b[sq := 'O'])
    ensures IsBoard(b[sq := 'O']) && CanPlay(b[sq := 'O'], reply) && IsBoard(b[sq := 'O'][reply := 'X'])
    ensures Guarded(b[sq := 'O'][reply := 'X'], pairs)
  {
    PlayFree(b, sq, 'O');
    var b1 := b[sq := 'O'];
    if k :| 0 <= k < |pairs| && pairs[k].0 == sq && b[pairs[k].1] == EMPTY {
      assert Open(b, pairs[k]);
      reply := pairs[k].1;
      KeepsGuard(b, pairs, sq, reply, k);
    } else if k :| 0 <= k < |pairs| && pairs[k].1 == sq && b[pairs[k].0] == EMPTY {
      assert Open(b, pairs[k]);
      reply := pairs[k].0;
      KeepsGuard(b, pairs, sq, reply, k);
    } else {
      reply :| CanPlay(b1, reply);
      KeepsGuard(b, pairs, sq, reply, -1);
    }
  }

  lemma KeepsGuard(b: Board, pairs: seq<(int, int)>, sq: int, reply: int, k: int)
    requires IsBoard(b) && Guarded(b, pairs) && CanPlay(b, sq) && CanPlay(b[sq := 'O'], reply) && -1 <= k < |pairs|
    requires if k == -1 then forall l | 0 <= l < |pairs| && (pairs[l].0 == sq || pairs[l].1 == sq) ::
                               b[pairs[l].0] == 'X' || b[pairs[l].1] == 'X'
             else pairs[k] == (sq, reply) || pairs[k] == (reply, sq)
    ensures IsBoard(b[sq := 'O'][reply := 'X']) && Guarded(b[sq := 'O'][reply := 'X'], pairs)
  {
    PlayFree(b, sq, 'O');
    PlayFree(b[sq := 'O'], reply, 'X');
    var b2 := b[sq := 'O'][reply := 'X'];
    forall r | 0 <= r < 8 ensures Guards(b2, pairs, r) {
      assert Guards(b, pairs, r);
    }
    forall l | 0 <= l < |pairs| ensures Open(b2, pairs[l]) {
      assert Open(b, pairs[l]);
      if k != -1 && l != k {
        assert if l < k then Apart(pairs[l], pairs[k]) else Apart(pairs[k], pairs[l]);
      }
    }
  }

  lemma {:induction false} GuardedIsSafe(b: Board, pairs: seq<(int, int)>)
    requires IsBoard(b) && Guarded(b, pairs)
    ensures Safe(b)
    decreases |Free(b)|
  {
    forall r | 0 <= r < 8 ensures Loose(b, r) {
      GuardedLoose(b, pairs, r);
    }
    NoRowNear(b);
    forall sq | CanPlay(b, sq) ensures IsBoard(b[sq := 'O']) && Answered(b[sq := 'O']) {
      PlayFree(b, sq, 'O');
      if HasFree(b[sq := 'O']) {
        var reply := Partner(b, pairs, sq);
        PlayFree(b[sq := 'O'], reply, 'X');
        hide Guarded;
        GuardedIsSafe(b[sq := 'O'][reply := 'X'], pairs);
        AnsweredBy(b[sq := 'O'], reply);
      }
    }
    SafeWhen(b);
  }

  // ---------- Boards turned by a quarter ----------

  const TURN: seq<int> := [6, 3, 0, 7, 4, 1, 8, 5, 2]
  const BACK: seq<int> := [2, 5, 8, 1, 4, 7, 0, 3, 6]
  const TURNED_ROW: seq<int> := [3, 4, 5, 2, 1, 0, 7, 6]
  const BACK_ROW: seq<int> := [5, 4, 3, 0, 1, 2, 7, 6]

  ghost function Turned(b: Board): Board
    requires |b| == SQUARES
  {
    [b[6], b[3], b[0], b[7], b[4], b[1], b[8], b[5], b[2]]
  }

  lemma TurnedRow(b: Board, r: int, player: char)
    requires |b| == SQUARES && 0 <= r < 8
    ensures 0 <= TURNED_ROW[r] < 8 && (HasRow(Turned(b), r, player) <==> HasRow(b, TURNED_ROW[r], player))
    ensures 0 <= BACK_ROW[r] < 8 && (HasRow(b, r, player) <==> HasRow(Turned(b), BACK_ROW[r], player))
  {
  }

  lemma TurnedOwns(b: Board, player: char)
    requires |b| == SQUARES
    ensures OwnsRow(Turned(b), player) <==> OwnsRow(b, player)
  {
    forall r | 0 <= r < 8 ensures HasRow(b, r, player) ==> OwnsRow(Turned(b), player) {
      TurnedRow(b, r, player);
    }
    forall r | 0 <= r < 8 ensures HasRow(Turned(b), r, player) ==> OwnsRow(b, player) {
      TurnedRow(b, r, player);
    }
  }

  lemma TurnedMove(b: Board, sq: int, player: char)
    requires IsBoard(b) && 0 <= sq < SQUARES && IsPlayer(player)
    ensures IsBoard(Turned(b)) && 0 <= TURN[sq] < SQUARES && 0 <= BACK[sq] < SQUARES
    ensures (CanPlay(Turned(b), sq) <==> CanPlay(b, TURN[sq])) && (CanPlay(b, sq) <==> CanPlay(Turned(b), BACK[sq]))
    ensures Turned(b)[sq := player] == Turned(b[TURN[sq] := player])
    ensures Turned(b)[BACK[sq] := player] == Turned(b[sq := player])
  {
  }

  lemma {:induction false} TurnedSafe(b: Board)
    requires IsBoard(b)
    ensures IsBoard(Turned(b))
    ensures Safe(b) ==> Safe(Turned(b))
    ensures Answered(b) ==> Answered(Turned(b))
    decreases |Free(b)|
  {
    var t := Turned(b);
    TurnedMove(b, 0, 'X');
    TurnedOwns(b, 'X');
    TurnedOwns(b, 'O');
    hide OwnsRow, Turned;
    if Safe(b) && !OwnsRow(b, 'X') {
      forall sq | CanPlay(t, sq) ensures IsBoard(t[sq := 'O']) && Answered(t[sq := 'O']) {
        TurnedMove(b, sq, 'O');
        PlayFree(b, TURN[sq], 'O');
        TurnedSafe(b[TURN[sq] := 'O']);
      }
      SafeWhen(t);
    }
    if Answered(b) && !OwnsRow(b, 'X') && HasFree(t) {
      var i :| CanPlay(t, i);
      TurnedMove(b, i, 'X');
      assert HasFree(b);
      var sq :| CanPlay(b, sq) && (PlayFree(b, sq, 'X'); Safe(b[sq := 'X']));
      TurnedMove(b, sq, 'X');
      PlayFree(b, sq, 'X');
      TurnedSafe(b[sq := 'X']);
      AnsweredBy(t, BACK[sq]);
    }
  }

  // ---------- X's answers ----------

  /** The same, row by row. */
  ghost predicate Spelled(b: Board, pairs: seq<(int, int)>)
    requires |b| == SQUARES
  {
    Guards(b, pairs, 0) && Guards(b, pairs, 1) && Guards(b, pairs, 2) && Guards(b, pairs, 3) &&
    Guards(b, pairs, 4) && Guards(b, pairs, 5) && Guards(b, pairs, 6) && Guards(b, pairs, 7) &&
    (forall k | 0 <= k < |pairs| :: Open(b, pairs[k])) &&
    (forall k, l | 0 <= k < l < |pairs| :: Apart(pairs[k], pairs[l]))
  }

  lemma SpelledIsSafe(b: Board, pairs: seq<(int, int)>)
    requires IsBoard(b) && Spelled(b, pairs)
    ensures Safe(b)
  {
    hide Guards;
    forall r | 0 <= r < 8 ensures Guards(b, pairs, r) {
      assert r in {0, 1, 2, 3, 4, 5, 6, 7};
    }
    GuardedIsSafe(b, pairs);
  }

  /** O's move `sq` is answered by `reply`, after which `pairs` guard. */
  lemma Reply(b: Board, sq: int, reply: int, pairs: seq<(int, int)>)
    requires IsBoard(b) && AllLoose(b) && CanPlay(b, sq) && CanPlay(b[sq := 'O'], reply)
    requires Spelled(b[sq := 'O'][reply := 'X'], pairs)
    ensures IsBoard(b[sq := 'O']) && Answered(b[sq := 'O'])
  {
    hide Spelled, AllLoose;
    PlayFree(b, sq, 'O');
    PlayFree(b[sq := 'O'], reply, 'X');
    SpelledIsSafe(b[sq := 'O'][reply := 'X'], pairs);
    ReplySafe(b, sq, reply);
  }

  lemma ReplySafe(b: Board, sq: int, reply: int)
    requires IsBoard(b) && AllLoose(b) && CanPlay(b, sq) && CanPlay(b[sq := 'O'], reply)
    requires IsBoard(b[sq := 'O'][reply := 'X']) && Safe(b[sq := 'O'][reply := 'X'])
    ensures IsBoard(b[sq := 'O']) && Answered(b[sq := 'O'])
  {
    hide AllLoose, Safe, Answered;
    NoRowNear(b);
    AnsweredBy(b[sq := 'O'], reply);
  }

  /** X threatens to win at `t`: O must move there, and is answered by `reply`. */
  lemma Forced(b: Board, t: int, reply: int)
    requires IsBoard(b) && AllLoose(b) && CanPlay(b, t) && OwnsRow(b[t := 'X'], 'X')
    requires CanPlay(b[t := 'O'], reply) && IsBoard(b[t := 'O'][reply := 'X']) && Safe(b[t := 'O'][reply := 'X'])
    ensures Safe(b)
  {
    NoRowNear(b);
    forall sq | CanPlay(b, sq) ensures IsBoard(b[sq := 'O']) && Answered(b[sq := 'O']) {
      if sq == t {
        ReplySafe(b, t, reply);
      } else {
        Wins(b, sq, t);
      }
    }
    SafeWhen(b);
  }

  lemma Wins(b: Board, sq: int, t: int)
    requires IsBoard(b) && AllLoose(b) && CanPlay(b, sq) && CanPlay(b, t) && sq != t && OwnsRow(b[t := 'X'], 'X')
    ensures IsBoard(b[sq := 'O']) && Answered(b[sq := 'O'])
  {
    NoRowNear(b);
    PlayFree(b, t, 'X');
    PlayFree(b, sq, 'O');
    var b1 := b[t := 'X'];
    PlayFree(b1, sq, 'O');
    MoveRowsKept(b1, sq);
    assert b1[sq := 'O'] == b[sq := 'O'][t := 'X'];
    AnsweredBy(b[sq := 'O'], t);
  }

  /** A move of O leaves the rows of X. */
  lemma MoveRowsKept(b: Board, sq: int)
    requires IsBoard(b) && CanPlay(b, sq) && OwnsRow(b, 'X')
    ensures OwnsRow(b[sq := 'O'], 'X')
  {
    var b' := b[sq := 'O'];
    var r :| 0 <= r < 8 && HasRow(b, r, 'X');
    assert HasRow(b', r, 'X');
  }

  lemma ForcedPairs(b: Board, t: int, reply: int, pairs: seq<(int, int)>)
    requires IsBoard(b) && AllLoose(b) && CanPlay(b, t) && OwnsRow(b[t := 'X'], 'X')
    requires CanPlay(b[t := 'O'], reply) && Spelled(b[t := 'O'][reply := 'X'], pairs)
    ensures Safe(b)
  {
    hide Spelled, AllLoose, Safe, OwnsRow;
    PlayFree(b, t, 'O');
    PlayFree(b[t := 'O'], reply, 'X');
    SpelledIsSafe(b[t := 'O'][reply := 'X'], pairs);
    Forced(b, t, reply);
  }

  /** Two threats at once cannot both be met. */
  lemma Twice(b: Board, t: int, u: int)
    requires IsBoard(b) && AllLoose(b) && CanPlay(b, t) && CanPlay(b, u) && t != u
    requires OwnsRow(b[t := 'X'], 'X') && OwnsRow(b[u := 'X'], 'X')
    ensures Safe(b)
  {
    NoRowNear(b);
    hide OwnsRow, AllLoose, Safe, Answered;
    forall sq | CanPlay(b, sq) ensures IsBoard(b[sq := 'O']) && Answered(b[sq := 'O']) {
      Wins(b, sq, if sq == t then u else t);
    }
    SafeWhen(b);
  }

  lemma XRow(b: Board, r: int)
    requires |b| == SQUARES && 0 <= r < 8 && HasRow(b, r, 'X')
    ensures OwnsRow(b, 'X')
  {
  }

  // ---------- O begins at the side, in a corner, in the centre ----------

  lemma CentreFirst()
    ensures IsBoard("    X    ") && Safe("    X    ")
  {
    var b: Board := "    X    ";
    SpelledIsSafe(b, [(0, 1), (2, 5), (7, 8), (3, 6)]);
  }

  /** O began at the side, X in the centre. */
  lemma Side()
    ensures IsBoard(" O  X    ") && Safe(" O  X    ")
  {
    var b: Board := " O  X    ";
    assert AllLoose(b);
    hide AllLoose, Answered, Safe;
    forall sq | CanPlay(b, sq) ensures IsBoard(b[sq := 'O']) && Answered(b[sq := 'O']) {
      match sq {
        case 0 => Reply(b, 0, 2, [(3, 6), (7, 8)]);
        case 2 => Reply(b, 2, 0, [(5, 8), (6, 7)]);
        case 3 => Reply(b, 3, 0, [(2, 5), (6, 7)]);
        case 5 => Reply(b, 5, 0, [(2, 8), (6, 7)]);
        case 6 => Reply(b, 6, 0, [(2, 5), (7, 8)]);
        case 7 => Reply(b, 7, 0, [(2, 5), (6, 8)]);
        case 8 => Reply(b, 8, 0, [(2, 5), (6, 7)]);
        case _ =>
      }
    }
    SafeWhen(b);
  }

  /** O began in a corner, X in the centre, and O went on in another corner, or below. */
  lemma CornerTwo()
    ensures IsBoard("OXO X    ") && Safe("OXO X    ")
  {
    var b: Board := "OXO X    ";
    XRow(b[7 := 'X'], 4);
    ForcedPairs(b, 7, 6, [(5, 8)]);
  }

  lemma CornerSix()
    ensures IsBoard("O  XX O  ") && Safe("O  XX O  ")
  {
    var b: Board := "O  XX O  ";
    XRow(b[5 := 'X'], 1);
    ForcedPairs(b, 5, 2, [(7, 8)]);
  }

  lemma CornerEight()
    ensures IsBoard("OX  X   O") && Safe("OX  X   O")
  {
    var b: Board := "OX  X   O";
    XRow(b[7 := 'X'], 4);
    ForcedPairs(b, 7, 6, [(2, 5)]);
  }

  lemma Corner()
    ensures IsBoard("O   X    ") && Safe("O   X    ")
  {
    var b: Board := "O   X    ";
    assert AllLoose(b);
    hide AllLoose, Answered, Safe;
    forall sq | CanPlay(b, sq) ensures IsBoard(b[sq := 'O']) && Answered(b[sq := 'O']) {
      match sq {
        case 1 => Reply(b, 1, 2, [(3, 6), (7, 8)]);
        case 2 =>
          CornerTwo();
          assert b[2 := 'O'][1 := 'X'] == "OXO X    ";
          ReplySafe(b, 2, 1);
        case 3 => Reply(b, 3, 6, [(1, 2), (5, 8)]);
        case 5 => Reply(b, 5, 2, [(3, 6), (7, 8)]);
        case 6 =>
          CornerSix();
          assert b[6 := 'O'][3 := 'X'] == "O  XX O  ";
          ReplySafe(b, 6, 3);
        case 7 => Reply(b, 7, 6, [(1, 2), (5, 8)]);
        case 8 =>
          CornerEight();
          assert b[8 := 'O'][1 := 'X'] == "OX  X   O";
          ReplySafe(b, 8, 1);
        case _ =>
      }
    }
    SafeWhen(b);
  }

  lemma CentreSideTwo()
    ensures IsBoard("XOO O XX ") && Safe("XOO O XX ")
  {
    var b: Board := "XOO O XX ";
    XRow(b[3 := 'X'], 3);
    XRow(b[8 := 'X'], 2);
    Twice(b, 3, 8);
  }

  lemma CentreSideFive()
    ensures IsBoard("XO XOO X ") && Safe("XO XOO X ")
  {
    var b: Board := "XO XOO X ";
    XRow(b[6 := 'X'], 3);
    ForcedPairs(b, 6, 2, []);
  }

  /** O began in the centre and went on at the side, X in the corner and opposite. */
  lemma CentreSide()
    ensures IsBoard("XO  O  X ") && Safe("XO  O  X ")
  {
    var b: Board := "XO  O  X ";
    assert AllLoose(b);
    hide AllLoose, Answered, Safe;
    forall sq | CanPlay(b, sq) ensures IsBoard(b[sq := 'O']) && Answered(b[sq := 'O']) {
      match sq {
        case 2 =>
          CentreSideTwo();
          assert b[2 := 'O'][6 := 'X'] == "XOO O XX ";
          ReplySafe(b, 2, 6);
        case 3 => Reply(b, 3, 5, [(2, 6)]);
        case 5 =>
          CentreSideFive();
          assert b[5 := 'O'][3 := 'X'] == "XO XOO X ";
          ReplySafe(b, 5, 3);
        case 6 => Reply(b, 6, 2, [(3, 5)]);
        case 8 => Reply(b, 8, 2, [(3, 5)]);
        case _ =>
      }
    }
    SafeWhen(b);
  }

  lemma CentreLeftSix()
    ensures IsBoard("X XOOXO  ") && Safe("X XOOXO  ")
  {
    var b: Board := "X XOOXO  ";
    XRow(b[1 := 'X'], 0);
    XRow(b[8 := 'X'], 5);
    Twice(b, 1, 8);
  }

  lemma CentreLeftSeven()
    ensures IsBoard("XX OOX O ") && Safe("XX OOX O ")
  {
    var b: Board := "XX OOX O ";
    XRow(b[2 := 'X'], 0);
    ForcedPairs(b, 2, 6, []);
  }

  lemma CentreLeft()
    ensures IsBoard("X  OOX   ") && Safe("X  OOX   ")
  {
    var b: Board := "X  OOX   ";
    assert AllLoose(b);
    hide AllLoose, Answered, Safe;
    forall sq | CanPlay(b, sq) ensures IsBoard(b[sq := 'O']) && Answered(b[sq := 'O']) {
      match sq {
        case 1 => Reply(b, 1, 7, [(2, 6)]);
        case 2 => Reply(b, 2, 6, [(1, 7)]);
        case 6 =>
          CentreLeftSix();
          assert b[6 := 'O'][2 := 'X'] == "X XOOXO  ";
          ReplySafe(b, 6, 2);
        case 7 =>
          CentreLeftSeven();
          assert b[7 := 'O'][1 := 'X'] == "XX OOX O ";
          ReplySafe(b, 7, 1);
        case 8 => Reply(b, 8, 6, [(1, 7)]);
        case _ =>
      }
    }
    SafeWhen(b);
  }

  /** O began in the centre, X in the corner, and X can threaten at once. */
  lemma CentreTwo()
    ensures IsBoard("X O O X  ") && Safe("X O O X  ")
  {
    var b: Board := "X O O X  ";
    XRow(b[3 := 'X'], 3);
    ForcedPairs(b, 3, 5, [(1, 7)]);
  }

  lemma CentreSix()
    ensures IsBoard("X X O O  ") && Safe("X X O O  ")
  {
    var b: Board := "X X O O  ";
    XRow(b[1 := 'X'], 0);
    ForcedPairs(b, 1, 7, [(3, 5)]);
  }

  lemma CentreEight()
    ensures IsBoard("X X O   O") && Safe("X X O   O")
  {
    var b: Board := "X X O   O";
    XRow(b[1 := 'X'], 0);
    ForcedPairs(b, 1, 7, [(3, 5)]);
  }

  lemma CentreFiveOn()
    ensures IsBoard("X XXOOO  ") && Safe("X XXOOO  ")
  {
    var b: Board := "X XXOOO  ";
    XRow(b[1 := 'X'], 0);
    ForcedPairs(b, 1, 7, []);
  }

  lemma CentreFive()
    ensures IsBoard("X  XOO   ") && Safe("X  XOO   ")
  {
    var b: Board := "X  XOO   ";
    CentreFiveOn();
    hide Safe;
    assert b[6 := 'O'][2 := 'X'] == "X XXOOO  ";
    XRow(b[6 := 'X'], 3);
    Forced(b, 6, 2);
  }

  lemma CentreSevenOn()
    ensures IsBoard("XXO O XO ") && Safe("XXO O XO ")
  {
    var b: Board := "XXO O XO ";
    XRow(b[3 := 'X'], 3);
    ForcedPairs(b, 3, 5, []);
  }

  lemma CentreSeven()
    ensures IsBoard("XX  O  O ") && Safe("XX  O  O ")
  {
    var b: Board := "XX  O  O ";
    CentreSevenOn();
    hide Safe;
    assert b[2 := 'O'][6 := 'X'] == "XXO O XO ";
    XRow(b[2 := 'X'], 0);
    Forced(b, 2, 6);
  }

  lemma Centre()
    ensures IsBoard("X   O    ") && Safe("X   O    ")
  {
    var b: Board := "X   O    ";
    assert AllLoose(b);
    hide AllLoose, Answered, Safe;
    forall sq | CanPlay(b, sq) ensures IsBoard(b[sq := 'O']) && Answered(b[sq := 'O']) {
      match sq {
        case 1 =>
          CentreSide();
          assert b[1 := 'O'][7 := 'X'] == "XO  O  X ";
          ReplySafe(b, 1, 7);
        case 2 =>
          CentreTwo();
          assert b[2 := 'O'][6 := 'X'] == "X O O X  ";
          ReplySafe(b, 2, 6);
        case 3 =>
          CentreLeft();
          assert b[3 := 'O'][5 := 'X'] == "X  OOX   ";
          ReplySafe(b, 3, 5);
        case 5 =>
          CentreFive();
          assert b[5 := 'O'][3 := 'X'] == "X  XOO   ";
          ReplySafe(b, 5, 3);
        case 6 =>
          CentreSix();
          assert b[6 := 'O'][2 := 'X'] == "X X O O  ";
          ReplySafe(b, 6, 2);
        case 7 =>
          CentreSeven();
          assert b[7 := 'O'][1 := 'X'] == "XX  O  O ";
          ReplySafe(b, 7, 1);
        case 8 =>
          CentreEight();
          assert b[8 := 'O'][2 := 'X'] == "X X O   O";
          ReplySafe(b, 8, 2);
        case _ =>
      }
    }
    SafeWhen(b);
  }

  /** All corners, and all sides, are alike. */
  lemma UpperRight()
    ensures IsBoard("  O X    ") && Safe("  O X    ")
  {
    Corner();
    hide Safe;
    TurnedSafe("O   X    ");
    assert Turned("O   X    ") == "  O X    ";
  }

  lemma LowerRight()
    ensures IsBoard("    X   O") && Safe("    X   O")
  {
    UpperRight();
    hide Safe;
    TurnedSafe("  O X    ");
    assert Turned("  O X    ") == "    X   O";
  }

  lemma LowerLeft()
    ensures IsBoard("    X O  ") && Safe("    X O  ")
  {
    LowerRight();
    hide Safe;
    TurnedSafe("    X   O");
    assert Turned("    X   O") == "    X O  ";
  }

  lemma Right()
    ensures IsBoard("    XO   ") && Safe("    XO   ")
  {
    Side();
    hide Safe;
    TurnedSafe(" O  X    ");
    assert Turned(" O  X    ") == "    XO   ";
  }

  lemma Below()
    ensures IsBoard("    X  O ") && Safe("    X  O ")
  {
    Right();
    hide Safe;
    TurnedSafe("    XO   ");
    assert Turned("    XO   ") == "    X  O ";
  }

  lemma Left()
    ensures IsBoard("   OX    ") && Safe("   OX    ")
  {
    Below();
    hide Safe;
    TurnedSafe("    X  O ");
    assert Turned("    X  O ") == "   OX    ";
  }

  /** Whoever begins, X need not lose. */
  lemma StartIsSafe()
    ensures IsBoard("         ") && Safe("         ") && Answered("         ")
  {
    var b: Board := "         ";
    assert AllLoose(b);
    NoRowNear(b);
    hide AllLoose, Answered, Safe, OwnsRow;
    forall sq | CanPlay(b, sq) ensures IsBoard(b[sq := 'O']) && Answered(b[sq := 'O']) {
      match sq {
        case 0 =>
          Corner();
          assert b[0 := 'O'][4 := 'X'] == "O   X    ";
          ReplySafe(b, 0, 4);
        case 1 =>
          Side();
          assert b[1 := 'O'][4 := 'X'] == " O  X    ";
          ReplySafe(b, 1, 4);
        case 2 =>
          UpperRight();
          assert b[2 := 'O'][4 := 'X'] == "  O X    ";
          ReplySafe(b, 2, 4);
        case 3 =>
          Left();
          assert b[3 := 'O'][4 := 'X'] == "   OX    ";
          ReplySafe(b, 3, 4);
        case 4 =>
          Centre();
          assert b[4 := 'O'][0 := 'X'] == "X   O    ";
          ReplySafe(b, 4, 0);
        case 5 =>
          Right();
          assert b[5 := 'O'][4 := 'X'] == "    XO   ";
          ReplySafe(b, 5, 4);
        case 6 =>
          LowerLeft();
          assert b[6 := 'O'][4 := 'X'] == "    X O  ";
          ReplySafe(b, 6, 4);
        case 7 =>
          Below();
          assert b[7 := 'O'][4 := 'X'] == "    X  O ";
          ReplySafe(b, 7, 4);
        case 8 =>
          LowerRight();
          assert b[8 := 'O'][4 := 'X'] == "    X   O";
          ReplySafe(b, 8, 4);
        case _ =>
      }
    }
    SafeWhen(b);
    CentreFirst();
    assert b[4 := 'X'] == "    X    ";
    AnsweredBy(b, 4);
  }

  // ---------- A whole game ----------

  /** What a board is worth for X when `player` is to make move `move_nbr`. */
  ghost function Standing(b: Board, player: char, move_nbr: int): int
    requires IsBoard(b) && IsPlayer(player)
  {
    if Winner(b) == EMPTY then Minimax(b, player, move_nbr) else Score(Winner(b), move_nbr - 1)
  }

  /** A move leads to the standing it is worth, and O cannot lower the standing. */
  lemma AfterMove(b: Board, player: char, sq: int, move_nbr: int)
    requires IsBoard(b) && IsPlayer(player) && Winner(b) == EMPTY && CanPlay(b, sq)
    ensures IsBoard(b[sq := player])
    ensures Standing(b[sq := player], Other(player), move_nbr + 1) == MoveValue(b, player, sq, move_nbr)
    ensures player == 'O' ==> MoveValue(b, player, sq, move_nbr) >= Standing(b, player, move_nbr)
  {
    PlayFree(b, sq, player);
    MinimaxIsBest(b, player, move_nbr);
    assert NoWorse(player, Minimax(b, player, move_nbr), MoveValue(b, player, sq, move_nbr));
  }

  /** `human` always answers with a free square. */
  ghost predicate PlaysLegally(human: Board -> int) {
    forall b | IsBoard(b) && Winner(b) == EMPTY :: CanPlay(b, human(b))
  }

  lemma EmptyBoard(b: Board)
    requires |b| == SQUARES && forall i | 0 <= i < SQUARES :: b[i] == EMPTY
    ensures IsBoard(b) && InStep(b, 1) && Winner(b) == EMPTY
  {
    assert Free(b) == {0, 1, 2, 3, 4, 5, 6, 7, 8};
    NoRow(b, 0);
    assert b[0] == EMPTY;
  }

  lemma {:induction false} NoRow(b: Board, r: nat)
    requires |b| == SQUARES && forall i | 0 <= i < SQUARES :: b[i] == EMPTY
    ensures RowWinner(b, r) == None
    decreases 8 - r
  {
    if r < 8 { NoRow(b, r + 1); }
  }

  /** With perfect play of both sides X does not lose from the empty board, whoever begins. */
  lemma StartIsNoLoss(start: Board)
    requires |start| == SQUARES && forall i | 0 <= i < SQUARES :: start[i] == EMPTY
    ensures IsBoard(start) && Minimax(start, 'X', 1) >= 0 && Minimax(start, 'O', 1) >= 0
  {
    assert start == "         ";
    StartIsSafe();
    EmptyBoard(start);
    SafeIsNoLoss(start, 1);
  }

  /** A whole game, however the human plays: it ends, and the computer does not lose. */
  method Game(human_first: bool, human: Board -> int) returns (board: array<char>, move_nbr: int)
    requires PlaysLegally(human)
    ensures board.Length == SQUARES && IsBoard(board[..]) && InStep(board[..], move_nbr)
    ensures Winner(board[..]) == 'X' || Winner(board[..]) == 'C'
  {
    hide Winner, Minimax, MoveValue, Score;
    board := new char[SQUARES](_ => EMPTY);
    EmptyBoard(board[..]);
    StartIsNoLoss(board[..]);
    move_nbr := 1;
    var player := if human_first then 'O' else 'X';
    var w := FindWinner(board);
    while w == EMPTY
      invariant board.Length == SQUARES && IsBoard(board[..]) && IsPlayer(player) && InStep(board[..], move_nbr)
      invariant w == Winner(board[..]) && Standing(board[..], player, move_nbr) >= 0
      invariant fresh(board)
      decreases |Free(board[..])|
    {
      ghost var b := board[..];
      var square;
      if player == 'X' {
        square := ComputerMove(board, move_nbr);
      } else {
        square := human(board[..]);
        Play(board, square, 'O');
      }
      AfterMove(b, player, square, move_nbr);
      PlayFree(b, square, player);
      player := Other(player);
      move_nbr := move_nbr + 1;
      w := FindWinner(board);
    }
    NotLost(board[..], player, move_nbr);
  }

  lemma NotLost(b: Board, player: char, move_nbr: int)
    requires IsBoard(b) && IsPlayer(player) && InStep(b, move_nbr) && Winner(b) != EMPTY &&
             Standing(b, player, move_nbr) >= 0
    ensures Winner(b) == 'X' || Winner(b) == 'C'
  {
    WinnerMeans(b);
  }
}
