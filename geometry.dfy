/**
 * Integer rectangles and the game's fixed dimensions.
 *
 * A `Rect` is the record behind the engine's rectangles: a top-left corner
 * and a size, all in whole pixels. Its right and bottom edges are exclusive.
 */
module Geometry {

  /** Side of one map tile, in pixels. */
  const TileSize: int := 40
  /** Side of the player's square box, in pixels. */
  const PlayerSize: int := 32
  /** Pixels the player moves per frame along an axis that has input. */
  const PlayerSpeed: int := 3

  datatype Rect = Rect(x: int, y: int, w: int, h: int)
  {
    function Right(): int { x + w }
    function Bottom(): int { y + h }
  }

  /** A tile coordinate: row index, then column index. */
  datatype Pos = Pos(row: int, col: int)

  /**
   * Rectangle overlap as the engine tests it: the two rectangles share some
   * interior on both axes. Rectangles that only meet along an edge or at a
   * corner do not collide.
   */
  predicate Collides(a: Rect, b: Rect)
  {
    a.x < b.Right() && b.x < a.Right() && a.y < b.Bottom() && b.y < a.Bottom()
  }

  /** Pixel (px, py) lies inside `r`. */
  predicate Contains(r: Rect, px: int, py: int)
  {
    r.x <= px < r.Right() && r.y <= py < r.Bottom()
  }

  /**
   * For rectangles of positive size, the overlap test holds exactly when
   * the two rectangles have a pixel in common.
   */
  lemma CollidesMeansCommonPixel(a: Rect, b: Rect)
    requires a.w > 0 && a.h > 0 && b.w > 0 && b.h > 0
    ensures Collides(a, b) <==> exists px, py :: Contains(a, px, py) && Contains(b, px, py)
  {
    if Collides(a, b) {
      var px := if a.x < b.x then b.x else a.x;
      var py := if a.y < b.y then b.y else a.y;
      assert Contains(a, px, py) && Contains(b, px, py);
    }
  }

  /** The rectangle translated by (dx, dy), size unchanged. */
  function Move(r: Rect, dx: int, dy: int): (m: Rect)
    ensures m.w == r.w && m.h == r.h
    ensures m.x - r.x == dx && m.y - r.y == dy
  {
    Rect(r.x + dx, r.y + dy, r.w, r.h)
  }

  /** The pixel rectangle covered by the tile at `p`. */
  function TileRect(p: Pos): (t: Rect)
    ensures t.w == TileSize && t.h == TileSize
    ensures t.x % TileSize == 0 && t.y % TileSize == 0
    ensures t.x / TileSize == p.col && t.y / TileSize == p.row
  {
    Rect(p.col * TileSize, p.row * TileSize, TileSize, TileSize)
  }
}
