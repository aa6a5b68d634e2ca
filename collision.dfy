/**
 * Wall collision and the axis-separated movement it drives.
 *
 * Only '1' cells are walls. The collision test reads the map's width from
 * its first row and never looks outside the map, so area outside the map
 * blocks nothing.
 */
module Collision {
  import opened Geometry
  import opened TileMap

  /** The map width in tiles as the collision test reads it: the first row's length. */
  function Width(m: Grid): nat
  {
    if |m| == 0 then 0 else |m[0]|
  }

  /** Cell (r, c) is a wall within the area the collision test scans. */
  predicate WallAt(m: Grid, r: int, c: int)
  {
    0 <= r < |m| && 0 <= c < Width(m) && c < |m[r]| && m[r][c] == '1'
  }

  /** Box `b` overlaps the rectangle of some wall tile of `m`. */
  predicate WallHit(m: Grid, b: Rect)
  {
    exists r, c :: 0 <= r < |m| && 0 <= c < Width(m) && WallAt(m, r, c) && Collides(b, TileRect(Pos(r, c)))
  }

  /**
   * What the collision test needs to index the map safely: at least one
   * row, and no row shorter than the first.
   */
  predicate Scannable(m: Grid)
  {
    |m| > 0 && forall r :: 0 <= r < |m| ==> |m[0]| <= |m[r]|
  }

  function Max(a: int, b: int): int { if a < b then b else a }
  function Min(a: int, b: int): int { if a < b then a else b }

  /** Tile rows [startRow, endRow) and columns [startCol, endCol) to scan. */
  datatype Window = Window(startRow: int, endRow: int, startCol: int, endCol: int)

  /**
   * The scan window for box `b`: from the tile holding its top-left corner
   * to one past the tile holding its bottom-right edge, clamped to the map.
   * Division by the tile size rounds towards minus infinity.
   */
  function ScanWindow(m: Grid, b: Rect): (w: Window)
    ensures 0 <= w.startRow && w.endRow <= |m|
    ensures 0 <= w.startCol && w.endCol <= Width(m)
  {
    Window(Max(b.y / TileSize, 0), Min(b.Bottom() / TileSize + 1, |m|),
           Max(b.x / TileSize, 0), Min(b.Right() / TileSize + 1, Width(m)))
  }

  /** An interval that overlaps tile `k` spans from at most tile `k` to at least tile `k`. */
  lemma {:induction false} OverlapTileBounds(lo: int, hi: int, k: int)
    requires lo < k * TileSize + TileSize && k * TileSize < hi
    ensures lo / TileSize <= k <= hi / TileSize
  {
    var q, s := lo / TileSize, hi / TileSize;
    assert lo == q * TileSize + lo % TileSize;
    assert hi == s * TileSize + hi % TileSize;
  }

  /** The clamped, widened window never misses a wall tile the box overlaps. */
  lemma WindowCoversOverlaps(m: Grid, b: Rect, r: int, c: int)
    requires WallAt(m, r, c) && Collides(b, TileRect(Pos(r, c)))
    ensures ScanWindow(m, b).startRow <= r < ScanWindow(m, b).endRow
    ensures ScanWindow(m, b).startCol <= c < ScanWindow(m, b).endCol
  {
    OverlapTileBounds(b.x, b.Right(), c);
    OverlapTileBounds(b.y, b.Bottom(), r);
  }

  /**
   * The collision test: scans the window row by row and reports whether
   * box `b` overlaps any wall tile, stopping at the first one found.
   */
  method CheckCollision(m: Grid, b: Rect) returns (hit: bool)
    requires Scannable(m)
    ensures hit <==> WallHit(m, b)
  {
    var w := ScanWindow(m, b);
    var row := w.startRow;
    while row < w.endRow
      invariant w.startRow <= row <= Max(w.startRow, w.endRow)
      invariant forall r, c :: w.startRow <= r < row && w.startCol <= c < w.endCol ==>
        !(WallAt(m, r, c) && Collides(b, TileRect(Pos(r, c))))
    {
      var col := w.startCol;
      while col < w.endCol
        invariant w.startCol <= col <= Max(w.startCol, w.endCol)
        invariant forall r, c :: w.startRow <= r < row && w.startCol <= c < w.endCol ==>
          !(WallAt(m, r, c) && Collides(b, TileRect(Pos(r, c))))
        invariant forall c :: w.startCol <= c < col ==>
          !(WallAt(m, row, c) && Collides(b, TileRect(Pos(row, c))))
      {
        if m[row][col] == '1' {
          var wall := TileRect(Pos(row, col));
          if Collides(b, wall) {
            assert WallAt(m, row, col);
            return true;
          }
        }
        col := col + 1;
      }
      row := row + 1;
    }
    forall r, c | WallAt(m, r, c) && Collides(b, TileRect(Pos(r, c)))
      ensures false
    {
      WindowCoversOverlaps(m, b, r, c);
    }
    return false;
  }

  /** Area entirely outside the map never blocks. */
  lemma OutsideNeverBlocks(m: Grid, b: Rect)
    requires b.Right() <= 0 || b.Bottom() <= 0 || Width(m) * TileSize <= b.x || |m| * TileSize <= b.y
    ensures !WallHit(m, b)
  {
  }

  /**
   * One frame of movement: the horizontal displacement `dx` is tried first
   * and kept only if the moved box overlaps no wall; then the vertical
   * displacement `dy` is tried from the box's updated position, likewise.
   */
  function Resolve(m: Grid, p: Rect, dx: int, dy: int): (q: Rect)
    ensures q.w == p.w && q.h == p.h
    ensures q.x == p.x || q.x == p.x + dx
    ensures q.y == p.y || q.y == p.y + dy
    ensures !WallHit(m, p) ==> !WallHit(m, q)
  {
    var afterX := if WallHit(m, Move(p, dx, 0)) then p else Move(p, dx, 0);
    if WallHit(m, Move(afterX, 0, dy)) then afterX else Move(afterX, 0, dy)
  }

  /**
   * The horizontal move is committed exactly when the horizontally moved box
   * is clear; the vertical move is committed exactly when the box at the
   * already updated x, moved vertically, is clear. This holds for every
   * frame that starts clear of walls, including one with a single key held.
   */
  lemma ResolveAxisOrder(m: Grid, p: Rect, dx: int, dy: int)
    requires !WallHit(m, p)
    ensures Resolve(m, p, dx, dy).x == p.x + dx <==> !WallHit(m, Move(p, dx, 0))
    ensures Resolve(m, p, dx, dy).y == p.y + dy <==>
      !WallHit(m, Rect(Resolve(m, p, dx, dy).x, p.y + dy, p.w, p.h))
  {
  }

  /** On a map without walls every move is committed in full. */
  lemma NoWallsMoveFreely(m: Grid, p: Rect, dx: int, dy: int)
    requires forall r, c :: IsCell(m, r, c) ==> m[r][c] != '1'
    ensures Resolve(m, p, dx, dy) == Move(p, dx, dy)
  {
  }

  /** With no input the box stays where it is. */
  lemma ResolveIdle(m: Grid, p: Rect)
    ensures Resolve(m, p, 0, 0) == p
  {
  }
}
