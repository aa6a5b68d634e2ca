/**
 * The game state and its per-frame step.
 *
 * The engine keeps the current level's map, its doors, the player's box and
 * the level number in variables that level setup and the frame loop
 * overwrite; here they are the fields of a `Game` object.
 */
module Game {
  import opened Wrappers
  import opened Geometry
  import opened TileMap
  import opened Collision

  /** Whether the game is running, or why it has stopped. */
  datatype Status =
    | Playing
      /** The next level's map file does not exist: every level is finished. */
    | AllLevelsDone
      /** The level's map has no start cell. */
    | NoStartCell

  /** The movement along one axis: +1, -1 or 0 from the two keys of that axis. */
  function AxisIntent(plus: bool, minus: bool): (v: int)
    ensures -1 <= v <= 1
    ensures v == 0 <==> plus == minus
    ensures v == 1 <==> plus && !minus
  {
    (if plus then 1 else 0) - (if minus then 1 else 0)
  }

  /** Box `p` overlaps one of the door rectangles. */
  predicate DoorTouched(doors: seq<Rect>, p: Rect)
  {
    exists k :: 0 <= k < |doors| && Collides(p, doors[k])
  }

  /** Touching the door list of a map means overlapping the tile of one of its 'D' cells. */
  lemma DoorTouchedMeansDoorTile(m: Grid, p: Rect)
    ensures DoorTouched(DoorRects(m), p) <==>
      exists r, c :: IsCell(m, r, c) && m[r][c] == 'D' && Collides(p, TileRect(Pos(r, c)))
  {
    DoorRectsSpec(m);
    var doors := DoorRects(m);
    if DoorTouched(doors, p) {
      var k :| 0 <= k < |doors| && Collides(p, doors[k]);
      assert DoorOf(m, doors[k]);
      var q := Pos(doors[k].y / TileSize, doors[k].x / TileSize);
      assert IsCell(m, q.row, q.col) && m[q.row][q.col] == 'D' && Collides(p, TileRect(q));
    }
    if exists r, c :: IsCell(m, r, c) && m[r][c] == 'D' && Collides(p, TileRect(Pos(r, c))) {
      var r, c :| IsCell(m, r, c) && m[r][c] == 'D' && Collides(p, TileRect(Pos(r, c)));
      var k :| 0 <= k < |doors| && doors[k] == TileRect(Pos(r, c));
      assert Collides(p, doors[k]);
    }
  }

  /** A start cell in the scanned map is floor, so the player's starting box is clear of walls. */
  lemma {:induction false} StartIsClear(m: Grid, p: Pos)
    requires IsCell(m, p.row, p.col) && m[p.row][p.col] != '1'
    ensures !WallHit(m, PlayerStart(p))
  {
    forall r, c | WallAt(m, r, c)
      ensures !Collides(PlayerStart(p), TileRect(Pos(r, c)))
    {
      if Collides(PlayerStart(p), TileRect(Pos(r, c))) {
        PlayerStartOverlapsOnlyItsTile(p, Pos(r, c));
      }
    }
  }

  class Game {
    /** The level files: `maps[n]` is the text of level n; a missing key is a missing file. */
    const maps: map<int, string>
    var levelMap: Grid
    var doors: seq<Rect>
    var player: Rect
    var currentLevel: int
    var status: Status

    /**
     * While the game runs: no start cell is left in the map, the door list
     * matches the map's 'D' cells, and the player's box has the player's
     * size and overlaps no wall.
     */
    ghost predicate Valid()
      reads this
    {
      status == Playing ==>
        && (forall r, c :: IsCell(levelMap, r, c) ==> levelMap[r][c] != 'S')
        && doors == DoorRects(levelMap)
        && player.w == PlayerSize && player.h == PlayerSize
        && !WallHit(levelMap, player)
    }

    /**
     * The state that setting up level `index` leaves: the level's map with
     * its start cell rewritten to floor, one door per 'D' cell, and the
     * player centred in the start tile; or the reason the game stops.
     */
    ghost predicate Loaded(index: int)
      reads this
    {
      if index !in maps then status == AllLevelsDone
      else
        var m := LoadMap(maps[index]);
        && levelMap == Normalize(m)
        && doors == DoorRects(m)
        && match LastSpawn(m)
           case None => status == NoStartCell
           case Some(p) => status == Playing && player == PlayerStart(p)
    }

    /** Starts the game at level 1. */
    constructor (maps: map<int, string>)
      ensures this.maps == maps
      ensures Valid()
      ensures currentLevel == 1 && Loaded(1)
    {
      this.maps := maps;
      levelMap, doors, player := [], [], Rect(0, 0, 0, 0);
      currentLevel, status := 1, AllLevelsDone;
      new;
      StartLevel(1);
    }

    /** Sets up level `index` from its map file. */
    method StartLevel(index: int)
      modifies this
      ensures Valid()
      ensures Loaded(index)
      ensures currentLevel == old(currentLevel)
      ensures index !in maps ==> levelMap == old(levelMap) && doors == old(doors)
      ensures status != Playing ==> player == old(player)
    {
      if index !in maps {
        status := AllLevelsDone;
        return;
      }
      var m := LoadMap(maps[index]);
      var grid, found, start := ScanLevel(m);
      levelMap, doors := grid, found;
      if start.None? {
        status := NoStartCell;
        return;
      }
      player := PlayerStart(start.value);
      status := Playing;
      LastSpawnSpec(m);
      NormalizeKeepsDoors(m);
      StartIsClear(levelMap, start.value);
    }

    /**
     * One frame: moves the player by the held arrow keys, horizontal axis
     * first, and advances to the next level when the moved box touches a
     * door. Returns whether it advanced.
     */
    method Step(right: bool, left: bool, down: bool, up: bool) returns (advanced: bool)
      requires Valid() && status == Playing && Scannable(levelMap)
      modifies this
      ensures Valid()
      ensures var moved := Resolve(old(levelMap), old(player),
                                   AxisIntent(right, left) * PlayerSpeed, AxisIntent(down, up) * PlayerSpeed);
        && advanced == DoorTouched(old(doors), moved)
        && (!advanced ==>
              && player == moved && status == Playing && currentLevel == old(currentLevel)
              && levelMap == old(levelMap) && doors == old(doors))
        && (advanced ==>
              && currentLevel == old(currentLevel) + 1 && Loaded(currentLevel)
              && (status != Playing ==> player == moved)
              && (currentLevel !in maps ==> levelMap == old(levelMap) && doors == old(doors)))
    {
      var moveX := AxisIntent(right, left) * PlayerSpeed;
      var moveY := AxisIntent(down, up) * PlayerSpeed;

      var newRect := Move(player, moveX, 0);
      var hit := CheckCollision(levelMap, newRect);
      if !hit {
        player := player.(x := newRect.x);
      }

      newRect := Move(player, 0, moveY);
      hit := CheckCollision(levelMap, newRect);
      if !hit {
        player := player.(y := newRect.y);
      }

      ghost var moved := player;
      assert moved == Resolve(old(levelMap), old(player), moveX, moveY);

      advanced := false;
      var i := 0;
      while i < |doors|
        invariant 0 <= i <= |doors|
        invariant !advanced && status == Playing && player == moved && currentLevel == old(currentLevel)
        invariant levelMap == old(levelMap) && doors == old(doors)
        invariant forall k :: 0 <= k < i ==> !Collides(moved, doors[k])
      {
        if Collides(player, doors[i]) {
          assert DoorTouched(old(doors), moved);
          currentLevel := currentLevel + 1;
          StartLevel(currentLevel);
          advanced := true;
          break;
        }
        i := i + 1;
      }
    }
  }
}
