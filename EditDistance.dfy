/**
 * The edit-distance engine of Distle: the restricted Damerau-Levenshtein
 * (optimal string alignment) table, the backward walk that reads a top-down
 * list of edit operations off that table, and the distance entry point.
 *
 * Rows of the table index prefixes of the source word `s0`, columns prefixes
 * of the target word `s1`.
 */
module EditDistance {

  /** The four edit operations the game reports. */
  datatype EditOp = R | T | I | D

  /** The one-letter tag under which the game reports each operation. */
  function Tag(op: EditOp): (tag: string)
    ensures |tag| == 1
  {
    match op
    case R => "R"
    case T => "T"
    case I => "I"
    case D => "D"
  }

  lemma TagInjective(a: EditOp, b: EditOp)
    ensures Tag(a) == Tag(b) <==> a == b
  {
  }

  /** The operation list as the game reports it, one tag per operation. */
  function Tags(ops: seq<EditOp>): (tags: seq<string>)
    ensures |tags| == |ops|
  {
    if ops == [] then [] else [Tag(ops[0])] + Tags(ops[1..])
  }

  /** Two operation lists are equal exactly when their tag lists are. */
  lemma {:induction false} TagsInjective(a: seq<EditOp>, b: seq<EditOp>)
    ensures Tags(a) == Tags(b) <==> a == b
  {
    if Tags(a) == Tags(b) && a != [] {
      assert b != [];
      assert Tags(a)[0] == Tag(a[0]) && Tags(b)[0] == Tag(b[0]);
      assert Tags(a)[1..] == Tags(a[1..]) && Tags(b)[1..] == Tags(b[1..]);
      TagsInjective(a[1..], b[1..]);
      assert a == [a[0]] + a[1..] && b == [b[0]] + b[1..];
    }
  }

  /** Number of occurrences of `op` in `ops`. */
  function Count(ops: seq<EditOp>, op: EditOp): (n: nat)
    ensures n <= |ops|
  {
    if ops == [] then 0 else (if ops[0] == op then 1 else 0) + Count(ops[1..], op)
  }

  lemma {:induction false} CountAppend(a: seq<EditOp>, b: seq<EditOp>, op: EditOp)
    ensures Count(a + b, op) == Count(a, op) + Count(b, op)
  {
    if a == [] {
      assert a + b == b;
    } else {
      assert (a + b)[0] == a[0] && (a + b)[1..] == a[1..] + b;
      CountAppend(a[1..], b, op);
    }
  }

  lemma AppendAssociative<X>(a: seq<X>, b: seq<X>, c: seq<X>)
    ensures (a + b) + c == a + (b + c)
  {
  }

  /** Cost the table gives a transposition that is not available. */
  const Infeasible: nat := 1000

  /** The smallest of four integers. */
  function Min4(a: int, b: int, c: int, d: int): (m: int)
    ensures m <= a && m <= b && m <= c && m <= d
    ensures m == a || m == b || m == c || m == d
  {
    var smallest1 := if a <= b then a else b;
    var smallest2 := if c <= d then c else d;
    if smallest1 <= smallest2 then smallest1 else smallest2
  }

  function Max(a: nat, b: nat): nat
  {
    if a < b then b else a
  }

  /**
   * The last two characters of the prefixes `s0[..i]` and `s1[..j]` are an
   * adjacent pair in swapped order.
   */
  predicate Swapped(s0: string, s1: string, i: nat, j: nat)
    requires i <= |s0| && j <= |s1|
  {
    i >= 2 && j >= 2 && s0[i - 1] == s1[j - 2] && s0[i - 2] == s1[j - 1]
  }

  /**
   * The table cell for prefixes `s0[..i]` and `s1[..j]`, as the table filler
   * computes it: gutters count pure insertions or deletions, a match copies
   * the diagonal, a mismatch takes the cheapest of delete, insert, replace
   * and (when the pair is swapped) transpose; an absent transposition costs
   * `Infeasible`.
   */
  function Cell(s0: string, s1: string, i: nat, j: nat): (c: int)
    requires i <= |s0| && j <= |s1|
    ensures 0 <= c <= Max(i, j)
    decreases i + j, 1
  {
    if i == 0 then j
    else if j == 0 then i
    else if s1[j - 1] == s0[i - 1] then Cell(s0, s1, i - 1, j - 1)
    else MismatchCost(s0, s1, i, j)
  }

  /** Case 2 of the table filler: the cheapest edit ending at a mismatched cell. */
  function MismatchCost(s0: string, s1: string, i: nat, j: nat): (c: int)
    requires 0 < i <= |s0| && 0 < j <= |s1|
    ensures 0 <= c <= Max(i, j)
    decreases i + j, 0
  {
    var transposition := if Swapped(s0, s1, i, j) then Cell(s0, s1, i - 2, j - 2) + 1 else Infeasible;
    Min4(Cell(s0, s1, i - 1, j) + 1, Cell(s0, s1, i, j - 1) + 1, Cell(s0, s1, i - 1, j - 1) + 1, transposition)
  }

  /** The gutters: row 0 holds the column index and column 0 the row index. */
  lemma GutterCells(s0: string, s1: string, i: nat, j: nat)
    requires i <= |s0| && j <= |s1|
    ensures Cell(s0, s1, 0, j) == j && Cell(s0, s1, i, 0) == i
  {
  }

  /** A match costs nothing: the cell copies its diagonal neighbour. */
  lemma MatchIsFree(s0: string, s1: string, i: nat, j: nat)
    requires 0 < i <= |s0| && 0 < j <= |s1| && s0[i - 1] == s1[j - 1]
    ensures Cell(s0, s1, i, j) == Cell(s0, s1, i - 1, j - 1)
  {
  }

  /**
   * On a mismatch, for words no longer than `Infeasible`, the cell is the
   * minimum of delete, insert and replace, together with transpose exactly
   * when the last two characters are swapped.
   */
  lemma MismatchIsMinimum(s0: string, s1: string, i: nat, j: nat)
    requires |s0| <= Infeasible && |s1| <= Infeasible
    requires 0 < i <= |s0| && 0 < j <= |s1| && s0[i - 1] != s1[j - 1]
    ensures Cell(s0, s1, i, j) <= Cell(s0, s1, i - 1, j) + 1
    ensures Cell(s0, s1, i, j) <= Cell(s0, s1, i, j - 1) + 1
    ensures Cell(s0, s1, i, j) <= Cell(s0, s1, i - 1, j - 1) + 1
    ensures Swapped(s0, s1, i, j) ==> Cell(s0, s1, i, j) <= Cell(s0, s1, i - 2, j - 2) + 1
    ensures || Cell(s0, s1, i, j) == Cell(s0, s1, i - 1, j) + 1
            || Cell(s0, s1, i, j) == Cell(s0, s1, i, j - 1) + 1
            || Cell(s0, s1, i, j) == Cell(s0, s1, i - 1, j - 1) + 1
            || (Swapped(s0, s1, i, j) && Cell(s0, s1, i, j) == Cell(s0, s1, i - 2, j - 2) + 1)
  {
    // the replace candidate never exceeds Infeasible, so the sentinel never wins alone
    assert Cell(s0, s1, i - 1, j - 1) + 1 <= Infeasible;
  }

  /** The cost of turning a word into itself is zero at every diagonal cell. */
  lemma {:induction false} SelfCellIsZero(s: string, k: nat)
    requires k <= |s|
    ensures Cell(s, s, k, k) == 0
  {
    if k > 0 {
      SelfCellIsZero(s, k - 1);
    }
  }

  /**
   * The cost is symmetric: turning `s0[..i]` into `s1[..j]` costs as much as
   * turning `s1[..j]` into `s0[..i]` (deletions and insertions trade places).
   */
  lemma {:induction false} CellSymmetric(s0: string, s1: string, i: nat, j: nat)
    requires i <= |s0| && j <= |s1|
    ensures Cell(s0, s1, i, j) == Cell(s1, s0, j, i)
    decreases i + j
  {
    if i > 0 && j > 0 {
      if s1[j - 1] == s0[i - 1] {
        CellSymmetric(s0, s1, i - 1, j - 1);
      } else {
        CellSymmetric(s0, s1, i - 1, j);
        CellSymmetric(s0, s1, i, j - 1);
        CellSymmetric(s0, s1, i - 1, j - 1);
        if Swapped(s0, s1, i, j) {
          CellSymmetric(s0, s1, i - 2, j - 2);
        }
        MismatchSymmetric(s0, s1, i, j);
      }
    }
  }

  /** The mismatch step of `CellSymmetric`: symmetric neighbours give a symmetric cell. */
  lemma MismatchSymmetric(s0: string, s1: string, i: nat, j: nat)
    requires 0 < i <= |s0| && 0 < j <= |s1| && s0[i - 1] != s1[j - 1]
    requires Cell(s0, s1, i - 1, j) == Cell(s1, s0, j, i - 1)
    requires Cell(s0, s1, i, j - 1) == Cell(s1, s0, j - 1, i)
    requires Cell(s0, s1, i - 1, j - 1) == Cell(s1, s0, j - 1, i - 1)
    requires Swapped(s0, s1, i, j) ==> Cell(s0, s1, i - 2, j - 2) == Cell(s1, s0, j - 2, i - 2)
    ensures Cell(s0, s1, i, j) == Cell(s1, s0, j, i)
  {
    MismatchCell(s0, s1, i, j);
    MismatchCell(s1, s0, j, i);
    assert Swapped(s0, s1, i, j) == Swapped(s1, s0, j, i);
  }

  /** `table` is the table computed for `s0` and `s1`. */
  ghost predicate TableFor(s0: string, s1: string, table: array2<int>)
    reads table
  {
    && table.Length0 == |s0| + 1
    && table.Length1 == |s1| + 1
    && forall i, j {:trigger table[i, j]} :: 0 <= i <= |s0| && 0 <= j <= |s1| ==> table[i, j] == Cell(s0, s1, i, j)
  }

  /** Fills the `(|s0|+1) x (|s1|+1)` table: gutters first, then row by row. */
  method EditDistTable(s0: string, s1: string) returns (board: array2<int>)
    ensures fresh(board)
    ensures TableFor(s0, s1, board)
  {
    board := new int[|s0| + 1, |s1| + 1];

    // column gutters
    var k := 0;
    while k < board.Length1
      invariant 0 <= k <= board.Length1
      invariant forall c :: 0 <= c < k ==> board[0, c] == c
    {
      board[0, k] := k;
      k := k + 1;
    }

    // row gutters
    k := 0;
    while k < board.Length0
      invariant 0 <= k <= board.Length0
      invariant forall c :: 0 <= c < board.Length1 ==> board[0, c] == c
      invariant forall r :: 0 <= r < k ==> board[r, 0] == r
    {
      board[k, 0] := k;
      k := k + 1;
    }

    // the rest of the table
    var row := 1;
    while row < |s0| + 1
      invariant 1 <= row <= |s0| + 1
      invariant forall r, c {:trigger board[r, c]} :: 0 <= r < row && 0 <= c <= |s1| ==> board[r, c] == Cell(s0, s1, r, c)
      invariant forall r :: row <= r <= |s0| ==> board[r, 0] == r
    {
      FillRow(s0, s1, board, row);
      row := row + 1;
    }
  }

  /** Fills row `row` of the table from left to right. */
  method FillRow(s0: string, s1: string, board: array2<int>, row: nat)
    requires board.Length0 == |s0| + 1 && board.Length1 == |s1| + 1
    requires 0 < row <= |s0|
    requires forall r, c {:trigger board[r, c]} :: 0 <= r < row && 0 <= c <= |s1| ==> board[r, c] == Cell(s0, s1, r, c)
    requires board[row, 0] == row
    modifies board
    ensures forall c :: 0 <= c <= |s1| ==> board[row, c] == Cell(s0, s1, row, c)
    ensures forall r, c {:trigger board[r, c]} :: 0 <= r < board.Length0 && 0 <= c < board.Length1 && r != row ==> board[r, c] == old(board[r, c])
  {
    var col := 1;
    while col < |s1| + 1
      invariant 1 <= col <= |s1| + 1
      invariant forall c :: 0 <= c < col ==> board[row, c] == Cell(s0, s1, row, c)
      invariant forall r, c {:trigger board[r, c]} :: 0 <= r < board.Length0 && 0 <= c < board.Length1 && r != row ==> board[r, c] == old(board[r, c])
    {
      FillCell(s0, s1, board, row, col);
      col := col + 1;
    }
  }

  /** The mismatch case of `Cell`, stated on its own. */
  lemma MismatchCell(s0: string, s1: string, i: nat, j: nat)
    requires 0 < i <= |s0| && 0 < j <= |s1| && s0[i - 1] != s1[j - 1]
    ensures Cell(s0, s1, i, j) == Min4(Cell(s0, s1, i - 1, j) + 1, Cell(s0, s1, i, j - 1) + 1, Cell(s0, s1, i - 1, j - 1) + 1,
                                      if Swapped(s0, s1, i, j) then Cell(s0, s1, i - 2, j - 2) + 1 else Infeasible)
  {
  }

  /** Fills cell `(row, col)` from its already-filled neighbours. */
  method FillCell(s0: string, s1: string, board: array2<int>, row: nat, col: nat)
    requires board.Length0 == |s0| + 1 && board.Length1 == |s1| + 1
    requires 0 < row <= |s0| && 0 < col <= |s1|
    requires board[row - 1, col] == Cell(s0, s1, row - 1, col)
    requires board[row, col - 1] == Cell(s0, s1, row, col - 1)
    requires board[row - 1, col - 1] == Cell(s0, s1, row - 1, col - 1)
    requires row >= 2 && col >= 2 ==> board[row - 2, col - 2] == Cell(s0, s1, row - 2, col - 2)
    modifies board
    ensures board[row, col] == Cell(s0, s1, row, col)
    ensures forall r, c {:trigger board[r, c]} :: 0 <= r < board.Length0 && 0 <= c < board.Length1 && (r != row || c != col) ==> board[r, c] == old(board[r, c])
  {
    if s1[col - 1] == s0[row - 1] {
      board[row, col] := board[row - 1, col - 1];
    } else {
      var transposition := Infeasible;
      if row >= 2 && col >= 2 && s0[row - 1] == s1[col - 2] && s0[row - 2] == s1[col - 1] {
        transposition := board[row - 2, col - 2] + 1;
      }
      var delete := board[row - 1, col] + 1;
      var insert := board[row, col - 1] + 1;
      var replace := board[row - 1, col - 1] + 1;
      MismatchCell(s0, s1, row, col);
      board[row, col] := Min4(delete, insert, replace, transposition);
    }
  }

  /**
   * Both words are short enough for the walk: a cell the walk visits can
   * only take the value of the `Infeasible` sentinel when one of its
   * neighbours explains it too.
   */
  predicate Walkable(s0: string, s1: string)
  {
    |s0| <= Infeasible && |s1| <= Infeasible
  }

  /** A cost table as a value: one row per prefix of the source word. */
  type Table = seq<seq<int>>

  predicate Shaped(tbl: Table, rows: nat, cols: nat)
  {
    |tbl| == rows + 1 && forall i :: 0 <= i < |tbl| ==> |tbl[i]| == cols + 1
  }

  /** The table the filler computes for `s0` and `s1`, as a value. */
  function CellTable(s0: string, s1: string): (tbl: Table)
    ensures Shaped(tbl, |s0|, |s1|)
    ensures forall i, j :: 0 <= i <= |s0| && 0 <= j <= |s1| ==> tbl[i][j] == Cell(s0, s1, i, j)
  {
    seq(|s0| + 1, i requires 0 <= i <= |s0| => seq(|s1| + 1, j requires 0 <= j <= |s1| => Cell(s0, s1, i, j)))
  }

  /** The characters ending both prefixes agree: a free diagonal step. */
  predicate MatchAt(s0: string, s1: string, i: nat, j: nat)
    requires i <= |s0| && j <= |s1|
  {
    i > 0 && j > 0 && s0[i - 1] == s1[j - 1]
  }

  /** A replacement explains cell `(i, j)`. */
  predicate ReplaceFits(s0: string, s1: string, tbl: Table, i: nat, j: nat)
    requires Shaped(tbl, |s0|, |s1|) && i <= |s0| && j <= |s1|
  {
    i > 0 && j > 0 && tbl[i][j] == tbl[i - 1][j - 1] + 1
  }

  /** A transposition of the swapped last two characters explains cell `(i, j)`. */
  predicate TransposeFits(s0: string, s1: string, tbl: Table, i: nat, j: nat)
    requires Shaped(tbl, |s0|, |s1|) && i <= |s0| && j <= |s1|
  {
    Swapped(s0, s1, i, j) && tbl[i][j] == tbl[i - 2][j - 2] + 1
  }

  /** An insertion explains cell `(i, j)`. */
  predicate InsertFits(s0: string, s1: string, tbl: Table, i: nat, j: nat)
    requires Shaped(tbl, |s0|, |s1|) && i <= |s0| && j <= |s1|
  {
    j > 0 && tbl[i][j] == tbl[i][j - 1] + 1
  }

  /** A deletion explains cell `(i, j)`. */
  predicate DeleteFits(s0: string, s1: string, tbl: Table, i: nat, j: nat)
    requires Shaped(tbl, |s0|, |s1|) && i <= |s0| && j <= |s1|
  {
    i > 0 && tbl[i][j] == tbl[i - 1][j] + 1
  }

  /**
   * Cell `(i, j)` is explained by the step that reaches it: a free match when
   * the characters agree, otherwise one of the four operations.
   */
  predicate Explained(s0: string, s1: string, tbl: Table, i: nat, j: nat)
    requires Shaped(tbl, |s0|, |s1|) && i <= |s0| && j <= |s1|
  {
    if MatchAt(s0, s1, i, j) then tbl[i][j] == tbl[i - 1][j - 1]
    else (ReplaceFits(s0, s1, tbl, i, j) || TransposeFits(s0, s1, tbl, i, j)
          || InsertFits(s0, s1, tbl, i, j) || DeleteFits(s0, s1, tbl, i, j))
  }

  /** A table the walk can retrace: the origin is free and every other cell is explained. */
  predicate Coherent(s0: string, s1: string, tbl: Table)
  {
    && Shaped(tbl, |s0|, |s1|)
    && tbl[0][0] == 0
    && forall i, j :: 0 <= i <= |s0| && 0 <= j <= |s1| && !(i == 0 && j == 0) ==> Explained(s0, s1, tbl, i, j)
  }

  /**
   * The table computed for `s0` and `s1` can be retraced: at every cell but
   * the origin the walk has a step to take.
   */
  lemma CellTableCoherent(s0: string, s1: string)
    requires Walkable(s0, s1)
    ensures Coherent(s0, s1, CellTable(s0, s1))
  {
    var tbl := CellTable(s0, s1);
    forall i, j | 0 <= i <= |s0| && 0 <= j <= |s1| && !(i == 0 && j == 0)
      ensures Explained(s0, s1, tbl, i, j)
    {
      if MatchAt(s0, s1, i, j) {
        MatchIsFree(s0, s1, i, j);
      } else if i > 0 && j > 0 {
        MismatchIsMinimum(s0, s1, i, j);
      } else if i == 0 {
        assert InsertFits(s0, s1, tbl, i, j);
      } else {
        assert DeleteFits(s0, s1, tbl, i, j);
      }
    }
  }

  /** One step of the backward walk: a free match, or an emitted operation. */
  datatype Move = Match | Emit(op: EditOp)

  /** Characters of the source word a move consumes. */
  function SourceUsed(m: Move): nat
  {
    match m
    case Match => 1
    case Emit(op) => if op == I then 0 else if op == T then 2 else 1
  }

  /** Characters of the target word a move consumes. */
  function TargetUsed(m: Move): nat
  {
    match m
    case Match => 1
    case Emit(op) => if op == D then 0 else if op == T then 2 else 1
  }

  /** What a move contributes to the operation list. */
  function Emitted(m: Move): seq<EditOp>
  {
    match m
    case Match => []
    case Emit(op) => [op]
  }

  /**
   * The move the walk makes at cell `(i, j)`: a match first; at a mismatch
   * replacement, then transposition, then insertion, then deletion, the
   * first that explains the cell. The move stays inside the table and
   * lowers the cost by exactly what it emits.
   */
  function Choice(s0: string, s1: string, tbl: Table, i: nat, j: nat): (m: Move)
    requires Coherent(s0, s1, tbl) && i <= |s0| && j <= |s1| && !(i == 0 && j == 0)
    ensures SourceUsed(m) <= i && TargetUsed(m) <= j
    ensures tbl[i][j] == tbl[i - SourceUsed(m)][j - TargetUsed(m)] + |Emitted(m)|
  {
    assert Explained(s0, s1, tbl, i, j);
    if MatchAt(s0, s1, i, j) then Match
    else if ReplaceFits(s0, s1, tbl, i, j) then Emit(R)
    else if TransposeFits(s0, s1, tbl, i, j) then Emit(T)
    else if InsertFits(s0, s1, tbl, i, j) then Emit(I)
    else Emit(D)
  }

  /**
   * The top-down operation list the backward walk emits from cell `(i, j)`
   * down to `(0, 0)`. Its length is the cell's cost.
   */
  function Walk(s0: string, s1: string, tbl: Table, i: nat, j: nat): (ops: seq<EditOp>)
    requires Coherent(s0, s1, tbl) && i <= |s0| && j <= |s1|
    ensures |ops| == tbl[i][j]
    decreases i + j
  {
    if i == 0 && j == 0 then []
    else
      var m := Choice(s0, s1, tbl, i, j);
      Emitted(m) + Walk(s0, s1, tbl, i - SourceUsed(m), j - TargetUsed(m))
  }

  /**
   * The walk from `(i, j)` is the move made there followed by the walk from
   * where that move leads.
   */
  lemma WalkStep(s0: string, s1: string, tbl: Table, i: nat, j: nat, i': nat, j': nat)
    requires Coherent(s0, s1, tbl) && i <= |s0| && j <= |s1| && !(i == 0 && j == 0)
    requires i' == i - SourceUsed(Choice(s0, s1, tbl, i, j)) && j' == j - TargetUsed(Choice(s0, s1, tbl, i, j))
    ensures Walk(s0, s1, tbl, i, j) == Emitted(Choice(s0, s1, tbl, i, j)) + Walk(s0, s1, tbl, i', j')
  {
  }

  /** Per move: insertions minus deletions is target minus source consumed. */
  lemma MoveNetLength(m: Move)
    ensures Count(Emitted(m), I) - Count(Emitted(m), D) == TargetUsed(m) - SourceUsed(m)
  {
  }

  lemma NetOfAppend(w: seq<EditOp>, e: seq<EditOp>, rest: seq<EditOp>)
    requires w == e + rest
    ensures Count(w, I) - Count(w, D) == (Count(e, I) - Count(e, D)) + (Count(rest, I) - Count(rest, D))
  {
    CountAppend(e, rest, I);
    CountAppend(e, rest, D);
  }

  /**
   * Each insertion in the walk from `(i, j)` adds a character and each
   * deletion removes one; replacements and transpositions keep the length.
   */
  lemma {:induction false} WalkNetLength(s0: string, s1: string, tbl: Table, i: nat, j: nat)
    requires Coherent(s0, s1, tbl) && i <= |s0| && j <= |s1|
    ensures Count(Walk(s0, s1, tbl, i, j), I) - Count(Walk(s0, s1, tbl, i, j), D) == j - i
    decreases i + j
  {
    if !(i == 0 && j == 0) {
      var m := Choice(s0, s1, tbl, i, j);
      var i', j' := i - SourceUsed(m), j - TargetUsed(m);
      var rest := Walk(s0, s1, tbl, i', j');
      WalkStep(s0, s1, tbl, i, j, i', j');
      WalkNetLength(s0, s1, tbl, i', j');
      MoveNetLength(m);
      NetOfAppend(Walk(s0, s1, tbl, i, j), Emitted(m), rest);
    }
  }

  /**
   * The tie-break: a match is taken whenever the characters agree; at a
   * mismatch replacement wins whenever it explains the cell, transposition
   * only when replacement does not, insertion only when neither does, and
   * deletion only when none of the three does.
   */
  lemma TieBreak(s0: string, s1: string, tbl: Table, i: nat, j: nat)
    requires Coherent(s0, s1, tbl) && i <= |s0| && j <= |s1| && !(i == 0 && j == 0)
    ensures Choice(s0, s1, tbl, i, j) == Match <==> MatchAt(s0, s1, i, j)
    ensures !MatchAt(s0, s1, i, j) ==>
      var replace := ReplaceFits(s0, s1, tbl, i, j);
      var transpose := TransposeFits(s0, s1, tbl, i, j);
      var insert := InsertFits(s0, s1, tbl, i, j);
      && (Choice(s0, s1, tbl, i, j) == Emit(R) <==> replace)
      && (Choice(s0, s1, tbl, i, j) == Emit(T) <==> !replace && transpose)
      && (Choice(s0, s1, tbl, i, j) == Emit(I) <==> !replace && !transpose && insert)
      && (Choice(s0, s1, tbl, i, j) == Emit(D) <==> !replace && !transpose && !insert)
  {
  }

  /**
   * The operation list that turns `s0` into `s1`: the walk over the table
   * computed for the two words. It has one operation per unit of cost, and
   * its insertions minus its deletions is the difference in length.
   */
  function Transformations(s0: string, s1: string): (ops: seq<EditOp>)
    requires Walkable(s0, s1)
    ensures |ops| == Cell(s0, s1, |s0|, |s1|)
    ensures Count(ops, I) - Count(ops, D) == |s1| - |s0|
  {
    CellTableCoherent(s0, s1);
    WalkNetLength(s0, s1, CellTable(s0, s1), |s0|, |s1|);
    Walk(s0, s1, CellTable(s0, s1), |s0|, |s1|)
  }

  /** Turning a word into itself takes no operation at all. */
  lemma TransformationsOfSelf(s: string)
    requires Walkable(s, s)
    ensures Transformations(s, s) == []
  {
    SelfCellIsZero(s, |s|);
  }

  /**
   * The walk so far followed by the rest of the walk from `(i, j)` is the
   * whole walk; after one more move, to `(i', j')`, it still is.
   */
  lemma WalkAdvance(s0: string, s1: string, tbl: Table, done: seq<EditOp>, i: nat, j: nat, next: seq<EditOp>, i': nat, j': nat)
    requires Coherent(s0, s1, tbl) && i <= |s0| && j <= |s1| && !(i == 0 && j == 0)
    requires done + Walk(s0, s1, tbl, i, j) == Walk(s0, s1, tbl, |s0|, |s1|)
    requires i' == i - SourceUsed(Choice(s0, s1, tbl, i, j)) && j' == j - TargetUsed(Choice(s0, s1, tbl, i, j))
    requires next == done + Emitted(Choice(s0, s1, tbl, i, j))
    ensures next + Walk(s0, s1, tbl, i', j') == Walk(s0, s1, tbl, |s0|, |s1|)
  {
    var m := Choice(s0, s1, tbl, i, j);
    var rest := Walk(s0, s1, tbl, i', j');
    WalkStep(s0, s1, tbl, i, j, i', j');
    AppendAssociative(done, Emitted(m), rest);
  }

  /** The array `table` holds exactly the values of `tbl`. */
  ghost predicate Holds(table: array2<int>, tbl: Table)
    reads table
  {
    && table.Length0 == |tbl|
    && (forall i :: 0 <= i < |tbl| ==> |tbl[i]| == table.Length1)
    && forall i, j {:trigger table[i, j]} :: 0 <= i < table.Length0 && 0 <= j < table.Length1 ==> table[i, j] == tbl[i][j]
  }

  /** A table filled for `s0` and `s1` holds the values of `CellTable(s0, s1)`. */
  lemma FilledTableHolds(s0: string, s1: string, table: array2<int>)
    requires TableFor(s0, s1, table)
    ensures Holds(table, CellTable(s0, s1))
  {
  }

  /**
   * Reads the operation list off `table`, walking back from the final cell to
   * `(0, 0)`. Any table whose cells are all explained can be walked; the
   * result is the walk over that table.
   */
  method TransformationList(s0: string, s1: string, table: array2<int>, ghost tbl: Table) returns (result: seq<EditOp>)
    requires Coherent(s0, s1, tbl) && Holds(table, tbl)
    ensures result == Walk(s0, s1, tbl, |s0|, |s1|)
  {
    result := [];
    var row := |s0|;
    var col := |s1|;
    var currentPosition := table[row, col];
    assert [] + Walk(s0, s1, tbl, row, col) == Walk(s0, s1, tbl, row, col);

    while !(row == 0 && col == 0)
      invariant 0 <= row <= |s0| && 0 <= col <= |s1|
      invariant currentPosition == tbl[row][col]
      invariant result + Walk(s0, s1, tbl, row, col) == Walk(s0, s1, tbl, |s0|, |s1|)
      decreases row + col
    {
      ghost var done, row0, col0 := result, row, col;
      if row > 0 && col > 0 && s0[row - 1] == s1[col - 1] {
        assert Choice(s0, s1, tbl, row, col) == Match;
        row, col := row - 1, col - 1;
        currentPosition := table[row, col];
      } else if row > 0 && col > 0 && currentPosition == table[row - 1, col - 1] + 1 {
        assert Choice(s0, s1, tbl, row, col) == Emit(R);
        row, col := row - 1, col - 1;
        currentPosition := table[row, col];
        result := result + [R];
      } else if row >= 2 && col >= 2 && currentPosition == table[row - 2, col - 2] + 1
                && s0[row - 1] == s1[col - 2] && s0[row - 2] == s1[col - 1] {
        assert Choice(s0, s1, tbl, row, col) == Emit(T);
        row, col := row - 2, col - 2;
        currentPosition := table[row, col];
        result := result + [T];
      } else if col > 0 && currentPosition == table[row, col - 1] + 1 {
        assert Choice(s0, s1, tbl, row, col) == Emit(I);
        col := col - 1;
        currentPosition := table[row, col];
        result := result + [I];
      } else {
        // the deletion test of the source always succeeds here
        assert Choice(s0, s1, tbl, row, col) == Emit(D);
        row := row - 1;
        currentPosition := table[row, col];
        result := result + [D];
      }
      WalkAdvance(s0, s1, tbl, done, row0, col0, result, row, col);
    }
  }

  /** The operation list for `s0` and `s1`, computed on a fresh table. */
  method TransformationsBetween(s0: string, s1: string) returns (result: seq<EditOp>)
    requires Walkable(s0, s1)
    ensures result == Transformations(s0, s1)
  {
    var table := EditDistTable(s0, s1);
    CellTableCoherent(s0, s1);
    FilledTableHolds(s0, s1, table);
    result := TransformationList(s0, s1, table, CellTable(s0, s1));
  }

  /**
   * The edit distance; the shortcuts for equal words and for an empty word
   * give the same answer as the table's final cell.
   */
  function EditDistance(s0: string, s1: string): (d: nat)
    ensures d == Cell(s0, s1, |s0|, |s1|)
  {
    if s0 == s1 then
      SelfCellIsZero(s0, |s0|);
      0
    else if s1 == [] then |s0|
    else if s0 == [] then |s1|
    else Cell(s0, s1, |s0|, |s1|)
  }

  /** The distance does not depend on the direction of the transformation. */
  lemma DistanceSymmetric(s0: string, s1: string)
    ensures EditDistance(s0, s1) == EditDistance(s1, s0)
  {
    CellSymmetric(s0, s1, |s0|, |s1|);
  }

  /** Only equal prefixes are at cost zero from one another. */
  lemma {:induction false} ZeroCellMeansEqualPrefixes(s0: string, s1: string, i: nat, j: nat)
    requires i <= |s0| && j <= |s1| && Cell(s0, s1, i, j) == 0
    ensures i == j && s0[..i] == s1[..j]
    decreases i + j
  {
    if i == 0 || j == 0 {
    } else if s1[j - 1] == s0[i - 1] {
      ZeroCellMeansEqualPrefixes(s0, s1, i - 1, j - 1);
      assert s0[..i] == s0[..i - 1] + [s0[i - 1]];
      assert s1[..j] == s1[..j - 1] + [s1[j - 1]];
    } else {
      assert false;
    }
  }

  /** The distance is zero exactly when the two words are equal. */
  lemma DistanceZeroIffEqual(s0: string, s1: string)
    ensures EditDistance(s0, s1) == 0 <==> s0 == s1
  {
    if EditDistance(s0, s1) == 0 {
      ZeroCellMeansEqualPrefixes(s0, s1, |s0|, |s1|);
      assert s0 == s0[..|s0|] && s1 == s1[..|s1|];
    }
  }
}
