/**
  The market tray: a 3x4 grid of marbles plus one spare marble.  Taking a
  row or a column yields its marbles and pushes the spare in at the far end,
  while the marble at the near end becomes the new spare.
 */
module ResourceMarket {
  import opened Resources

  const Rows: nat := 3
  const Columns: nat := 4

  /** The grid is indexed grid[row][column]; `remaining` is the spare marble. */
  datatype Tray = Tray(grid: seq<seq<Resource>>, remaining: Resource)

  predicate WellFormed(t: Tray) {
    && |t.grid| == Rows
    && forall r :: 0 <= r < Rows ==> |t.grid[r]| == Columns
  }

  /** All 13 marbles of the tray: the 12 cells and the spare. */
  function Tokens(t: Tray): multiset<Resource>
    requires WellFormed(t)
  {
    multiset(t.grid[0]) + multiset(t.grid[1]) + multiset(t.grid[2]) + multiset{t.remaining}
  }

  /** Column `c` of the grid, read from row 0 down to row 2. */
  function ColumnOf(t: Tray, c: nat): (line: seq<Resource>)
    requires WellFormed(t) && c < Columns
    ensures |line| == Rows
    ensures forall r :: 0 <= r < Rows ==> line[r] == t.grid[r][c]
  {
    seq(Rows, r requires 0 <= r < Rows => t.grid[r][c])
  }

  function Distance(a: int, b: int): nat {
    if a <= b then b - a else a - b
  }

  /** The lenient indexing of the tray: an out-of-range index is moved to the
      nearest valid one instead of being rejected. */
  function Clamp(index: int, size: nat): (r: nat)
    requires size > 0
    ensures r < size
    ensures 0 <= index < size ==> r == index
    ensures forall j :: 0 <= j < size ==> Distance(r, index) <= Distance(j, index)
  {
    if index >= size then size - 1
    else if index < 0 then 0
    else index
  }

  /** Initial tray filled row by row from a sequence of 13 drawn marbles, the
      last one becoming the spare. */
  function NewTray(draws: seq<Resource>): (t: Tray)
    requires |draws| == Rows * Columns + 1
    ensures WellFormed(t)
    ensures forall r, c :: 0 <= r < Rows && 0 <= c < Columns ==> t.grid[r][c] == draws[r * Columns + c]
    ensures t.remaining == draws[Rows * Columns]
    ensures Tokens(t) == multiset(draws)
  {
    var t := Tray([draws[0..4], draws[4..8], draws[8..12]], draws[12]);
    assert draws == draws[0..4] + draws[4..8] + draws[8..12] + [draws[12]];
    t
  }

  /** The tokens of a suffix are its first token plus the tokens of the rest. */
  lemma SuffixTokens(s: seq<Resource>, i: nat)
    requires i < |s|
    ensures multiset(s[i..]) == multiset{s[i]} + multiset(s[i + 1..])
  {
    assert s[i..] == [s[i]] + s[i + 1..];
  }

  /** The state reached by taking row `r`: the row moves one place towards
      column 0, the spare enters at column 3 and the marble of column 0
      becomes the spare. */
  function ShiftRow(t: Tray, r: nat): (t': Tray)
    requires WellFormed(t) && r < Rows
    ensures WellFormed(t')
    ensures forall c :: 0 <= c < Columns - 1 ==> t'.grid[r][c] == t.grid[r][c + 1]
    ensures t'.grid[r][Columns - 1] == t.remaining
    ensures t'.remaining == t.grid[r][0]
    ensures forall k :: 0 <= k < Rows && k != r ==> t'.grid[k] == t.grid[k]
  {
    var line := t.grid[r];
    Tray(t.grid[r := line[1..] + [t.remaining]], line[0])
  }

  /** Taking a row neither creates nor destroys a marble. */
  lemma ShiftRowConservesTokens(t: Tray, r: nat)
    requires WellFormed(t) && r < Rows
    ensures Tokens(ShiftRow(t, r)) == Tokens(t)
  {
    var line := t.grid[r];
    assert line == [line[0]] + line[1..];
  }

  /** The state reached by taking column `c`: the column moves one place
      towards row 0, the spare enters at row 2 and the marble of row 0
      becomes the spare. */
  function ShiftColumn(t: Tray, c: nat): (t': Tray)
    requires WellFormed(t) && c < Columns
    ensures WellFormed(t')
    ensures forall r :: 0 <= r < Rows - 1 ==> t'.grid[r][c] == t.grid[r + 1][c]
    ensures t'.grid[Rows - 1][c] == t.remaining
    ensures t'.remaining == t.grid[0][c]
    ensures forall r, j :: 0 <= r < Rows && 0 <= j < Columns && j != c ==> t'.grid[r][j] == t.grid[r][j]
  {
    var g := t.grid;
    Tray([g[0][c := g[1][c]], g[1][c := g[2][c]], g[2][c := t.remaining]], g[0][c])
  }

  /** Taking a column neither creates nor destroys a marble. */
  lemma ShiftColumnConservesTokens(t: Tray, c: nat)
    requires WellFormed(t) && c < Columns
    ensures Tokens(ShiftColumn(t, c)) == Tokens(t)
  {
  }

  /** getRow: gathers the marbles of the (clamped) row, walking it from the
      last column to the first and shifting each cell by one. */
  method TakeRow(t: Tray, row: int) returns (t': Tray, pack: ResourcePack)
    requires WellFormed(t)
    ensures t' == ShiftRow(t, Clamp(row, Rows))
    ensures pack == multiset(t.grid[Clamp(row, Rows)])
    ensures Tokens(t') == Tokens(t)
  {
    var r := Clamp(row, Rows);
    var grid := t.grid;
    var remaining := t.remaining;
    pack := multiset{};
    ghost var line := t.grid[r];
    var column := Columns as int - 1;
    while column >= 0
      invariant -1 <= column < Columns
      invariant |grid| == Rows && |grid[r]| == Columns
      invariant grid == t.grid[r := grid[r]]
      invariant forall c :: 0 <= c <= column ==> grid[r][c] == line[c]
      invariant forall c :: column < c < Columns - 1 ==> grid[r][c] == line[c + 1]
      invariant column < Columns - 1 ==> grid[r][Columns - 1] == t.remaining
      invariant remaining == if column == Columns - 1 then t.remaining else line[column + 1]
      invariant pack == multiset(line[column + 1..])
    {
      var tmp := grid[r][column];
      SuffixTokens(line, column);
      pack := pack + multiset{tmp};
      grid := grid[r := grid[r][column := remaining]];
      remaining := tmp;
      column := column - 1;
    }
    assert line[0..] == line;
    t' := Tray(grid, remaining);
    ShiftedRowIsShiftRow(t, r, t');
    ShiftRowConservesTokens(t, r);
  }

  /** A tray that agrees with ShiftRow cell by cell is ShiftRow. */
  lemma ShiftedRowIsShiftRow(t: Tray, r: nat, t': Tray)
    requires WellFormed(t) && r < Rows
    requires |t'.grid| == Rows && |t'.grid[r]| == Columns
    requires t'.grid == t.grid[r := t'.grid[r]]
    requires forall c :: 0 <= c < Columns - 1 ==> t'.grid[r][c] == t.grid[r][c + 1]
    requires t'.grid[r][Columns - 1] == t.remaining
    requires t'.remaining == t.grid[r][0]
    ensures t' == ShiftRow(t, r)
  {
    assert t'.grid[r] == t.grid[r][1..] + [t.remaining];
  }

  /** getColumn: gathers the marbles of the (clamped) column, walking it from
      the last row to the first and shifting each cell by one. */
  method TakeColumn(t: Tray, column: int) returns (t': Tray, pack: ResourcePack)
    requires WellFormed(t)
    ensures t' == ShiftColumn(t, Clamp(column, Columns))
    ensures pack == multiset(ColumnOf(t, Clamp(column, Columns)))
    ensures Tokens(t') == Tokens(t)
  {
    var c := Clamp(column, Columns);
    var grid := t.grid;
    var remaining := t.remaining;
    pack := multiset{};
    ghost var line := ColumnOf(t, c);
    // `col` is column `c` of `grid`, tracked as a flat sequence.
    ghost var col := line;
    WithOwnColumn(t, c);
    var row := Rows as int - 1;
    while row >= 0
      invariant -1 <= row < Rows
      invariant Slid(line, col, row, t.remaining) && grid == WithColumn(t, c, col)
      invariant remaining == if row == Rows - 1 then t.remaining else line[row + 1]
      invariant pack == multiset(line[row + 1..])
    {
      var tmp := grid[row][c];
      assert tmp == line[row];
      SuffixTokens(line, row);
      pack := pack + multiset{tmp};
      WithColumnUpdate(t, c, col, row, remaining);
      SlideStep(line, col, row, t.remaining);
      grid := grid[row := grid[row][c := remaining]];
      col := col[row := remaining];
      remaining := tmp;
      row := row - 1;
    }
    assert line[0..] == line;
    t' := Tray(grid, remaining);
    SlideDone(line, col, t.remaining);
    ShiftColumnIsWithColumn(t, c);
    ShiftColumnConservesTokens(t, c);
  }

  /** `col` is `line` part-way through a slide from the far end: the cells
      after `row` have moved one place towards the start, with `spare` in the
      last cell, and the cells up to `row` are not yet touched. */
  ghost predicate Slid(line: seq<Resource>, col: seq<Resource>, row: int, spare: Resource)
  {
    |line| == |col| == Rows && -1 <= row < Rows &&
    (forall k :: 0 <= k <= row ==> col[k] == line[k]) &&
    (forall k :: row < k < Rows - 1 ==> col[k] == line[k + 1]) &&
    (row < Rows - 1 ==> col[Rows - 1] == spare)
  }

  /** Sliding one more cell: cell `row` takes what was to its right. */
  lemma SlideStep(line: seq<Resource>, col: seq<Resource>, row: int, spare: Resource)
    requires Slid(line, col, row, spare) && 0 <= row
    ensures Slid(line, col[row := if row == Rows - 1 then spare else line[row + 1]], row - 1, spare)
  {
  }

  /** A finished slide moves every cell one place and appends the spare. */
  lemma SlideDone(line: seq<Resource>, col: seq<Resource>, spare: Resource)
    requires Slid(line, col, -1, spare)
    ensures col == line[1..] + [spare]
  {
  }

  /** The grid of `t` with column `c` replaced by `col`. */
  function WithColumn(t: Tray, c: nat, col: seq<Resource>): (g: seq<seq<Resource>>)
    requires WellFormed(t) && c < Columns && |col| == Rows
    ensures |g| == Rows
    ensures forall k :: 0 <= k < Rows ==> g[k] == t.grid[k][c := col[k]]
  {
    seq(Rows, k requires 0 <= k < Rows => t.grid[k][c := col[k]])
  }

  /** Writing one cell of the column is writing one entry of `col`. */
  lemma WithColumnUpdate(t: Tray, c: nat, col: seq<Resource>, row: nat, x: Resource)
    requires WellFormed(t) && c < Columns && |col| == Rows && row < Rows
    ensures var g := WithColumn(t, c, col);
            g[row := g[row][c := x]] == WithColumn(t, c, col[row := x])
  {
    var g := WithColumn(t, c, col);
    var h := WithColumn(t, c, col[row := x]);
    assert g[row][c := x] == h[row];
    assert g[row := g[row][c := x]] == h;
  }

  /** Writing each column cell back unchanged leaves the grid as it was. */
  lemma WithOwnColumn(t: Tray, c: nat)
    requires WellFormed(t) && c < Columns
    ensures WithColumn(t, c, ColumnOf(t, c)) == t.grid
  {
    var g := WithColumn(t, c, ColumnOf(t, c));
    assert g[0] == t.grid[0] && g[1] == t.grid[1] && g[2] == t.grid[2];
  }

  /** ShiftColumn replaces column `c` by the old column moved up by one, with
      the old spare at the bottom. */
  lemma ShiftColumnIsWithColumn(t: Tray, c: nat)
    requires WellFormed(t) && c < Columns
    ensures ShiftColumn(t, c)
         == Tray(WithColumn(t, c, ColumnOf(t, c)[1..] + [t.remaining]), t.grid[0][c])
  {
  }

  /** Five takes of the same row cycle its four marbles and the spare back to
      where they started: the row and the spare form a conveyor of length 5. */
  lemma RowConveyorCycle(t: Tray, r: nat)
    requires WellFormed(t) && r < Rows
    ensures ShiftRow(ShiftRow(ShiftRow(ShiftRow(ShiftRow(t, r), r), r), r), r) == t
  {
    var t1 := ShiftRow(t, r);
    var t2 := ShiftRow(t1, r);
    var t3 := ShiftRow(t2, r);
    var t4 := ShiftRow(t3, r);
    var t5 := ShiftRow(t4, r);
    assert t5.grid[r] == t.grid[r];
    assert t5.grid == t.grid;
  }

  /** Four takes of the same column cycle its three marbles and the spare back
      to where they started. */
  lemma ColumnConveyorCycle(t: Tray, c: nat)
    requires WellFormed(t) && c < Columns
    ensures ShiftColumn(ShiftColumn(ShiftColumn(ShiftColumn(t, c), c), c), c) == t
  {
    var t1 := ShiftColumn(t, c);
    var t2 := ShiftColumn(t1, c);
    var t3 := ShiftColumn(t2, c);
    var t4 := ShiftColumn(t3, c);
    forall k | 0 <= k < Rows
      ensures t4.grid[k] == t.grid[k]
    {
      assert forall j :: 0 <= j < Columns ==> t4.grid[k][j] == t.grid[k][j];
    }
    assert t4.grid == t.grid;
  }

  /** One harvest request of a player: a row or a column, by the index the
      player asked for (not yet clamped). */
  datatype Take = TakeRowAt(row: int) | TakeColumnAt(column: int)

  /** The tray after a sequence of harvests, in order. */
  function AfterTakes(t: Tray, takes: seq<Take>): (t': Tray)
    requires WellFormed(t)
    ensures WellFormed(t')
    decreases |takes|
  {
    if takes == [] then t
    else
      var next := match takes[0]
        case TakeRowAt(row) => ShiftRow(t, Clamp(row, Rows))
        case TakeColumnAt(column) => ShiftColumn(t, Clamp(column, Columns));
      AfterTakes(next, takes[1..])
  }

  /** However many rows and columns are taken, the 13 marbles of the tray are
      the same multiset: harvests only move marbles around. */
  lemma {:induction false} TakesConserveTokens(t: Tray, takes: seq<Take>)
    requires WellFormed(t)
    ensures Tokens(AfterTakes(t, takes)) == Tokens(t)
    decreases |takes|
  {
    if takes != [] {
      var next := match takes[0]
        case TakeRowAt(row) => ShiftRow(t, Clamp(row, Rows))
        case TakeColumnAt(column) => ShiftColumn(t, Clamp(column, Columns));
      match takes[0] {
        case TakeRowAt(row) => ShiftRowConservesTokens(t, Clamp(row, Rows));
        case TakeColumnAt(column) => ShiftColumnConservesTokens(t, Clamp(column, Columns));
      }
      TakesConserveTokens(next, takes[1..]);
    }
  }

  /** A tray built from the standard marbles holds exactly the standard
      marbles after any sequence of harvests. */
  lemma StandardTrayKeepsStandardMarbles(draws: seq<Resource>, takes: seq<Take>)
    requires |draws| == Rows * Columns + 1
    requires multiset(draws) == StandardMarbles()
    ensures Tokens(AfterTakes(NewTray(draws), takes)) == StandardMarbles()
  {
    TakesConserveTokens(NewTray(draws), takes);
  }
}
