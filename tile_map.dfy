/**
 * The level map: reading a level's text into a grid of characters, and the
 * setup scan that finds the start cell and the doors.
 *
 * Cell characters are kept as they appear in the level text: '0' floor,
 * '1' wall, 'D' door, 'S' start. Any other character is kept as it is and
 * has no meaning to the engine.
 */
module TileMap {
  import opened Wrappers
  import opened Geometry

  /** A level map: one sequence of cell characters per text line. */
  type Grid = seq<seq<char>>

  predicate IsCell(m: Grid, r: int, c: int)
  {
    0 <= r < |m| && 0 <= c < |m[r]|
  }

  // ---------------------------------------------------------------------
  // Reading the level text
  // ---------------------------------------------------------------------

  /**
   * The characters at which the text is split into lines: line feed,
   * carriage return, vertical tab, form feed, the three separators
   * 0x1C-0x1E, next line (0x85) and the Unicode line and paragraph
   * separators. A carriage return followed by a line feed is one break.
   */
  predicate IsLineBreak(ch: char)
  {
    || ch == '\n' || ch == '\r' || ch == '\U{0B}' || ch == '\U{0C}'
    || ch == '\U{1C}' || ch == '\U{1D}' || ch == '\U{1E}' || ch == '\U{85}'
    || ch == '\U{2028}' || ch == '\U{2029}'
  }

  predicate NoBreaks(s: string)
  {
    forall i :: 0 <= i < |s| ==> !IsLineBreak(s[i])
  }

  /** The index of the first line break at or after `i`, or `|s|` if none. */
  function LineEnd(s: string, i: nat): (e: nat)
    requires i <= |s|
    ensures i <= e <= |s|
    ensures forall k :: i <= k < e ==> !IsLineBreak(s[k])
    ensures e < |s| ==> IsLineBreak(s[e])
    decreases |s| - i
  {
    if i == |s| || IsLineBreak(s[i]) then i else LineEnd(s, i + 1)
  }

  /** How many characters the line break at `e` spans. */
  function BreakLength(s: string, e: nat): (n: nat)
    requires e < |s|
    ensures 1 <= n <= |s| - e && n <= 2
    ensures n == 2 <==> e + 2 <= |s| && s[e..e + 2] == "\r\n"
  {
    if s[e] == '\r' && e + 1 < |s| && s[e + 1] == '\n' then 2 else 1
  }

  /**
   * The grid read from a level's text: one row per line, each row the
   * line's characters in order, line breaks dropped. A break at the very
   * end of the text does not start another (empty) row.
   */
  function LoadMap(text: string): (rows: Grid)
    ensures forall r :: 0 <= r < |rows| ==> NoBreaks(rows[r])
    ensures |rows| <= |text|
    decreases |text|
  {
    if text == [] then []
    else
      var e := LineEnd(text, 0);
      if e == |text| then [text]
      else [text[..e]] + LoadMap(text[e + BreakLength(text, e)..])
  }

  /** The level text that writes each row on a line of its own. */
  function JoinLines(lines: seq<string>): string
  {
    if lines == [] then [] else lines[0] + "\n" + JoinLines(lines[1..])
  }

  /**
   * Any line break ends a row: a carriage return and line feed together,
   * or a single break character (a lone carriage return only when no line
   * feed follows it, since the two together are one break).
   */
  lemma LineBreakEndsRow(line: string, brk: string, rest: string)
    requires NoBreaks(line)
    requires brk == "\r\n" || (|brk| == 1 && IsLineBreak(brk[0]) && !(brk[0] == '\r' && rest != [] && rest[0] == '\n'))
    ensures LoadMap(line + brk + rest) == [line] + LoadMap(rest)
  {
    var text := line + brk + rest;
    assert forall k :: 0 <= k < |line| ==> text[k] == line[k];
    assert text[|line|] == brk[0];
    assert LineEnd(text, 0) == |line|;
    assert BreakLength(text, |line|) == |brk|;
    assert text[..|line|] == line;
    assert text[|line| + |brk|..] == rest;
  }

  /**
   * Text that starts with whole lines reads back as exactly those lines, in
   * order, followed by the rows of the rest of the text.
   */
  lemma {:induction false} LoadMapJoinLines(lines: seq<string>, rest: string)
    requires forall k :: 0 <= k < |lines| ==> NoBreaks(lines[k])
    ensures LoadMap(JoinLines(lines) + rest) == lines + LoadMap(rest)
  {
    if lines != [] {
      var tail := JoinLines(lines[1..]) + rest;
      calc {
        LoadMap(JoinLines(lines) + rest);
        { assert JoinLines(lines) + rest == lines[0] + "\n" + tail; }
        LoadMap(lines[0] + "\n" + tail);
        { LineBreakEndsRow(lines[0], "\n", tail); }
        [lines[0]] + LoadMap(tail);
        { LoadMapJoinLines(lines[1..], rest); }
        [lines[0]] + (lines[1..] + LoadMap(rest));
        { assert lines == [lines[0]] + lines[1..]; }
        lines + LoadMap(rest);
      }
    } else {
      assert JoinLines(lines) + rest == rest;
    }
  }

  /** Writing break-free rows one per line and reading the text back gives the same rows. */
  lemma LoadMapRoundTrip(lines: seq<string>)
    requires forall k :: 0 <= k < |lines| ==> NoBreaks(lines[k])
    ensures LoadMap(JoinLines(lines)) == lines
  {
    LoadMapJoinLines(lines, []);
    assert JoinLines(lines) + [] == JoinLines(lines);
  }

  /** A non-empty text without line breaks is a single row. */
  lemma LoadMapOneLine(s: string)
    requires s != [] && NoBreaks(s)
    ensures LoadMap(s) == [s]
  {
    assert LineEnd(s, 0) == |s|;
  }

  // ---------------------------------------------------------------------
  // Start cell normalisation
  // ---------------------------------------------------------------------

  /** A cell after setup: a start marker becomes floor. */
  function NormalCell(ch: char): char
  {
    if ch == 'S' then '0' else ch
  }

  function NormalRow(row: seq<char>): seq<char>
  {
    seq(|row|, c requires 0 <= c < |row| => NormalCell(row[c]))
  }

  /** The grid after setup: every start marker rewritten to floor. */
  function Normalize(m: Grid): (g: Grid)
    ensures |g| == |m|
    ensures forall r :: 0 <= r < |m| ==> |g[r]| == |m[r]|
    ensures forall r, c :: IsCell(m, r, c) ==> g[r][c] != 'S'
    ensures forall r, c :: IsCell(m, r, c) && m[r][c] == 'S' ==> g[r][c] == '0'
    ensures forall r, c :: IsCell(m, r, c) && m[r][c] != 'S' ==> g[r][c] == m[r][c]
  {
    seq(|m|, r requires 0 <= r < |m| => NormalRow(m[r]))
  }

  // ---------------------------------------------------------------------
  // Doors
  // ---------------------------------------------------------------------

  /** `a` comes strictly before `b` when rectangles are listed row by row. */
  predicate RowMajorBefore(a: Rect, b: Rect)
  {
    a.y < b.y || (a.y == b.y && a.x < b.x)
  }

  /** `d` is the tile rectangle of a 'D' cell of `m`. */
  predicate DoorOf(m: Grid, d: Rect)
  {
    var p := Pos(d.y / TileSize, d.x / TileSize);
    d == TileRect(p) && IsCell(m, p.row, p.col) && m[p.row][p.col] == 'D'
  }

  /** The door rectangles for the first `c` cells of `row`, which is row `r`. */
  function RowDoors(row: seq<char>, r: int, c: nat): seq<Rect>
    requires c <= |row|
  {
    if c == 0 then []
    else RowDoors(row, r, c - 1) + (if row[c - 1] == 'D' then [TileRect(Pos(r, c - 1))] else [])
  }

  /** The door rectangles for the first `n` rows of `m`, row by row. */
  function DoorsUpTo(m: Grid, n: nat): seq<Rect>
    requires n <= |m|
  {
    if n == 0 then [] else DoorsUpTo(m, n - 1) + RowDoors(m[n - 1], n - 1, |m[n - 1]|)
  }

  /** The door list that level setup builds from `m`. */
  function DoorRects(m: Grid): seq<Rect>
  {
    DoorsUpTo(m, |m|)
  }

  lemma {:induction false} RowDoorsSpec(m: Grid, r: int, c: nat)
    requires 0 <= r < |m| && c <= |m[r]|
    ensures forall k :: 0 <= k < |RowDoors(m[r], r, c)| ==>
      var d := RowDoors(m[r], r, c)[k];
      DoorOf(m, d) && d.y == r * TileSize && d.x < c * TileSize
    ensures forall j :: 0 <= j < c && m[r][j] == 'D' ==> TileRect(Pos(r, j)) in RowDoors(m[r], r, c)
    ensures forall i, k :: 0 <= i < k < |RowDoors(m[r], r, c)| ==>
      RowDoors(m[r], r, c)[i].x < RowDoors(m[r], r, c)[k].x
  {
    if c > 0 {
      RowDoorsSpec(m, r, c - 1);
    }
  }

  lemma {:induction false} DoorsUpToSpec(m: Grid, n: nat)
    requires n <= |m|
    ensures forall k :: 0 <= k < |DoorsUpTo(m, n)| ==>
      DoorOf(m, DoorsUpTo(m, n)[k]) && DoorsUpTo(m, n)[k].y < n * TileSize
    ensures forall r, c :: 0 <= r < n && 0 <= c < |m[r]| && m[r][c] == 'D' ==>
      TileRect(Pos(r, c)) in DoorsUpTo(m, n)
    ensures forall i, k :: 0 <= i < k < |DoorsUpTo(m, n)| ==>
      RowMajorBefore(DoorsUpTo(m, n)[i], DoorsUpTo(m, n)[k])
  {
    if n > 0 {
      DoorsUpToSpec(m, n - 1);
      RowDoorsSpec(m, n - 1, |m[n - 1]|);
      var front, back := DoorsUpTo(m, n - 1), RowDoors(m[n - 1], n - 1, |m[n - 1]|);
      var ds := DoorsUpTo(m, n);
      assert ds == front + back;
      forall k | 0 <= k < |ds|
        ensures DoorOf(m, ds[k]) && ds[k].y < n * TileSize
      {
        if k < |front| {
          assert ds[k] == front[k];
        } else {
          assert ds[k] == back[k - |front|];
        }
      }
      forall i, k | 0 <= i < k < |ds|
        ensures RowMajorBefore(ds[i], ds[k])
      {
        if k < |front| {
          assert ds[i] == front[i] && ds[k] == front[k];
        } else if i >= |front| {
          assert ds[i] == back[i - |front|] && ds[k] == back[k - |front|];
        } else {
          assert ds[i] == front[i] && ds[k] == back[k - |front|];
        }
      }
      forall r, c | 0 <= r < n && 0 <= c < |m[r]| && m[r][c] == 'D'
        ensures TileRect(Pos(r, c)) in front + back
      {
        if r < n - 1 {
          assert TileRect(Pos(r, c)) in front;
        } else {
          assert TileRect(Pos(r, c)) in back;
        }
      }
    }
  }

  /**
   * The door list holds exactly one rectangle per 'D' cell, in row-major
   * order, and nothing else.
   */
  lemma DoorRectsSpec(m: Grid)
    ensures forall k :: 0 <= k < |DoorRects(m)| ==> DoorOf(m, DoorRects(m)[k])
    ensures forall r, c :: IsCell(m, r, c) && m[r][c] == 'D' ==> TileRect(Pos(r, c)) in DoorRects(m)
    ensures forall i, k :: 0 <= i < k < |DoorRects(m)| ==> RowMajorBefore(DoorRects(m)[i], DoorRects(m)[k])
  {
    DoorsUpToSpec(m, |m|);
  }

  /** Rewriting start cells leaves the door list as it was. */
  lemma {:induction false} NormalizeKeepsDoors(m: Grid)
    ensures DoorRects(Normalize(m)) == DoorRects(m)
  {
    var g := Normalize(m);
    forall n | 0 <= n <= |m| ensures DoorsUpTo(g, n) == DoorsUpTo(m, n) {
      SameDoorsUpTo(g, m, n);
    }
  }

  lemma {:induction false} SameDoorsUpTo(g: Grid, m: Grid, n: nat)
    requires g == Normalize(m) && n <= |m|
    ensures DoorsUpTo(g, n) == DoorsUpTo(m, n)
  {
    if n > 0 {
      SameDoorsUpTo(g, m, n - 1);
      SameRowDoors(g[n - 1], m[n - 1], n - 1, |m[n - 1]|);
    }
  }

  lemma {:induction false} SameRowDoors(a: seq<char>, b: seq<char>, r: int, c: nat)
    requires |a| == |b| && c <= |b|
    requires forall j :: 0 <= j < |b| ==> (a[j] == 'D' <==> b[j] == 'D')
    ensures RowDoors(a, r, c) == RowDoors(b, r, c)
  {
    if c > 0 {
      SameRowDoors(a, b, r, c - 1);
    }
  }

  // ---------------------------------------------------------------------
  // Start cell
  // ---------------------------------------------------------------------

  /** The column of the last 'S' among the first `c` cells of `row`. */
  function RowSpawn(row: seq<char>, c: nat): Option<nat>
    requires c <= |row|
  {
    if c == 0 then None
    else if row[c - 1] == 'S' then Some(c - 1)
    else RowSpawn(row, c - 1)
  }

  /** The last 'S' cell within the first `n` rows, in row-major order. */
  function SpawnUpTo(m: Grid, n: nat): Option<Pos>
    requires n <= |m|
    decreases n, 0
  {
    if n == 0 then None else SpawnAt(m, n - 1, |m[n - 1]|)
  }

  /** The last 'S' cell before cell (r, c), in row-major order. */
  function SpawnAt(m: Grid, r: nat, c: nat): Option<Pos>
    requires r < |m| && c <= |m[r]|
    decreases r, 1
  {
    match RowSpawn(m[r], c)
    case Some(k) => Some(Pos(r, k))
    case None => SpawnUpTo(m, r)
  }

  /** The start cell that level setup picks: the last 'S' of the whole grid. */
  function LastSpawn(m: Grid): Option<Pos>
  {
    SpawnUpTo(m, |m|)
  }

  lemma {:induction false} RowSpawnSpec(row: seq<char>, c: nat)
    requires c <= |row|
    ensures RowSpawn(row, c).None? <==> forall j :: 0 <= j < c ==> row[j] != 'S'
    ensures RowSpawn(row, c).Some? ==>
      var k := RowSpawn(row, c).value;
      k < c && row[k] == 'S' && forall j :: k < j < c ==> row[j] != 'S'
  {
    if c > 0 {
      RowSpawnSpec(row, c - 1);
    }
  }

  lemma {:induction false} SpawnUpToSpec(m: Grid, n: nat)
    requires n <= |m|
    ensures SpawnUpTo(m, n).None? <==> forall r, c :: 0 <= r < n && 0 <= c < |m[r]| ==> m[r][c] != 'S'
    ensures SpawnUpTo(m, n).Some? ==>
      var p := SpawnUpTo(m, n).value;
      && p.row < n && IsCell(m, p.row, p.col) && m[p.row][p.col] == 'S'
      && forall r, c :: 0 <= r < n && 0 <= c < |m[r]| && m[r][c] == 'S' ==>
           r < p.row || (r == p.row && c <= p.col)
  {
    if n > 0 {
      SpawnUpToSpec(m, n - 1);
      RowSpawnSpec(m[n - 1], |m[n - 1]|);
    }
  }

  /**
   * Level setup finds a start cell exactly when the grid has an 'S', and
   * the one it finds is the last 'S' in row-major order.
   */
  lemma LastSpawnSpec(m: Grid)
    ensures LastSpawn(m).None? <==> forall r, c :: IsCell(m, r, c) ==> m[r][c] != 'S'
    ensures LastSpawn(m).Some? ==>
      var p := LastSpawn(m).value;
      && IsCell(m, p.row, p.col) && m[p.row][p.col] == 'S'
      && forall r, c :: IsCell(m, r, c) && m[r][c] == 'S' ==> r < p.row || (r == p.row && c <= p.col)
  {
    SpawnUpToSpec(m, |m|);
  }

  // ---------------------------------------------------------------------
  // The setup scan
  // ---------------------------------------------------------------------

  /**
   * The row-major scan of level setup: rewrites every 'S' to '0', records
   * the last 'S' seen and appends a door rectangle for every 'D'.
   */
  method ScanLevel(m: Grid) returns (grid: Grid, doors: seq<Rect>, start: Option<Pos>)
    ensures grid == Normalize(m)
    ensures doors == DoorRects(m)
    ensures start == LastSpawn(m)
  {
    grid, doors, start := m, [], None;
    var row := 0;
    while row < |grid|
      invariant 0 <= row <= |grid| == |m|
      invariant forall r :: 0 <= r < row ==> grid[r] == NormalRow(m[r])
      invariant forall r :: row <= r < |m| ==> grid[r] == m[r]
      invariant doors == DoorsUpTo(m, row)
      invariant start == SpawnUpTo(m, row)
    {
      var col := 0;
      while col < |grid[row]|
        invariant |grid| == |m| && |grid[row]| == |m[row]|
        invariant 0 <= col <= |m[row]|
        invariant forall r :: 0 <= r < row ==> grid[r] == NormalRow(m[r])
        invariant forall r :: row < r < |m| ==> grid[r] == m[r]
        invariant forall c :: 0 <= c < col ==> grid[row][c] == NormalCell(m[row][c])
        invariant forall c :: col <= c < |m[row]| ==> grid[row][c] == m[row][c]
        invariant doors == DoorsUpTo(m, row) + RowDoors(m[row], row, col)
        invariant start == SpawnAt(m, row, col)
      {
        if grid[row][col] == 'S' {
          start := Some(Pos(row, col));
          grid := grid[row := grid[row][col := '0']];
        } else if grid[row][col] == 'D' {
          doors := doors + [TileRect(Pos(row, col))];
        }
        col := col + 1;
      }
      assert grid[row] == NormalRow(m[row]);
      row := row + 1;
    }
    assert grid == Normalize(m);
  }

  // ---------------------------------------------------------------------
  // Player placement
  // ---------------------------------------------------------------------

  /** How far the player's box is inset from its start tile on each axis. */
  const StartOffset: int := (TileSize - PlayerSize) / 2

  /**
   * The player's box at level start: PlayerSize square, centred in the
   * start tile by the offset (TileSize - PlayerSize) / 2 on both axes.
   * It lies strictly inside that tile.
   */
  function PlayerStart(p: Pos): (b: Rect)
    ensures b.w == PlayerSize && b.h == PlayerSize
    ensures p.col * TileSize < b.x && b.Right() < p.col * TileSize + TileSize
    ensures p.row * TileSize < b.y && b.Bottom() < p.row * TileSize + TileSize
    ensures b.x - p.col * TileSize == p.col * TileSize + TileSize - b.Right()
    ensures b.y - p.row * TileSize == p.row * TileSize + TileSize - b.Bottom()
  {
    Rect(p.col * TileSize + StartOffset, p.row * TileSize + StartOffset, PlayerSize, PlayerSize)
  }

  /** The starting box overlaps no tile but its own. */
  lemma PlayerStartOverlapsOnlyItsTile(p: Pos, q: Pos)
    requires Collides(PlayerStart(p), TileRect(q))
    ensures q == p
  {
  }
}
