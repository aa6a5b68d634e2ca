/**
 * Two small levels worked through by hand.
 *
 * The first is a single floor tile walled in on all sides,
 *
 *     111
 *     1S1
 *     111
 *
 * The 32-pixel player box sits 4 pixels inside its 40-pixel tile, so it can
 * still shift a little before it meets a wall: one frame to the right moves
 * it by the full 3 pixels, and the next is blocked.
 *
 * The second is the one-row level `SD`: a start beside a door.
 *
 * This module only states facts about these two levels; it adds no
 * behaviour of its own.
 */
module Scenarios {
  import opened Wrappers
  import opened Geometry
  import opened TileMap
  import opened Collision
  import Game

  const BoxedText: string := "111\n1S1\n111"

  const BoxedRows: Grid := ["111", "1S1", "111"]

  lemma BoxedLoads()
    ensures LoadMap(BoxedText) == BoxedRows
  {
    LoadMapJoinLines(["111", "1S1"], "111");
    assert JoinLines(["111", "1S1"]) + "111" == BoxedText;
    LoadMapOneLine("111");
  }

  lemma BoxedStart()
    ensures LastSpawn(BoxedRows) == Some(Pos(1, 1))
  {
    LastSpawnSpec(BoxedRows);
    assert IsCell(BoxedRows, 1, 1) && BoxedRows[1][1] == 'S';
  }

  lemma BoxedScanned()
    ensures Normalize(BoxedRows) == ["111", "101", "111"]
  {
    var g := Normalize(BoxedRows);
    assert g[0] == "111" by { assert forall c :: 0 <= c < 3 ==> g[0][c] == '1'; }
    assert g[1] == "101" by { assert g[1][0] == '1' && g[1][1] == '0' && g[1][2] == '1'; }
    assert g[2] == "111" by { assert forall c :: 0 <= c < 3 ==> g[2][c] == '1'; }
  }

  /** From the start box (44, 44), a step right is clear. */
  lemma BoxedFirstStepRight()
    ensures Resolve(["111", "101", "111"], PlayerStart(Pos(1, 1)), PlayerSpeed, 0) == Rect(47, 44, 32, 32)
  {
    var m: Grid := ["111", "101", "111"];
    var b := Rect(47, 44, 32, 32);
    forall r, c | WallAt(m, r, c)
      ensures !Collides(b, TileRect(Pos(r, c)))
    {
    }
  }

  /** From (47, 44) a further step right would reach into the wall at column 2. */
  lemma BoxedSecondStepRight()
    ensures Resolve(["111", "101", "111"], Rect(47, 44, 32, 32), PlayerSpeed, 0) == Rect(47, 44, 32, 32)
  {
    var m: Grid := ["111", "101", "111"];
    assert WallAt(m, 1, 2) && Collides(Rect(50, 44, 32, 32), TileRect(Pos(1, 2)));
  }

  /**
   * A one-row level with the start beside a door. The first frame to the
   * right leaves the box short of the door; the second touches it, which
   * is what moves the game on to the next level.
   */
  const DoorText: string := "SD"

  lemma DoorLevelScanned()
    ensures LoadMap(DoorText) == ["SD"]
    ensures LastSpawn(["SD"]) == Some(Pos(0, 0))
    ensures Normalize(["SD"]) == ["0D"]
    ensures DoorRects(["SD"]) == [Rect(40, 0, 40, 40)]
  {
    LoadMapOneLine(DoorText);
    LastSpawnSpec(["SD"]);
    assert IsCell(["SD"], 0, 0) && "SD"[0] == 'S';
    var g := Normalize(["SD"]);
    assert g[0] == "0D" by { assert g[0][0] == '0' && g[0][1] == 'D'; }
    assert RowDoors("SD", 0, 1) == [];
  }

  /** With a single door, touching the door list means overlapping that door. */
  lemma OneDoorTouched(d: Rect, p: Rect)
    ensures Game.DoorTouched([d], p) <==> Collides(p, d)
  {
    assert [d][0] == d;
  }

  /** The first frame to the right stops the box at x = 7, short of the door. */
  lemma DoorFirstFrame()
    ensures Resolve(["0D"], PlayerStart(Pos(0, 0)), PlayerSpeed, 0) == Rect(7, 4, 32, 32)
    ensures !Game.DoorTouched([Rect(40, 0, 40, 40)], Rect(7, 4, 32, 32))
  {
    NoWallsMoveFreely(["0D"], PlayerStart(Pos(0, 0)), PlayerSpeed, 0);
    OneDoorTouched(Rect(40, 0, 40, 40), Rect(7, 4, 32, 32));
  }

  /** The second frame takes the box to x = 10, 2 pixels into the door. */
  lemma DoorSecondFrame()
    ensures Resolve(["0D"], Rect(7, 4, 32, 32), PlayerSpeed, 0) == Rect(10, 4, 32, 32)
    ensures Game.DoorTouched([Rect(40, 0, 40, 40)], Rect(10, 4, 32, 32))
  {
    NoWallsMoveFreely(["0D"], Rect(7, 4, 32, 32), PlayerSpeed, 0);
    OneDoorTouched(Rect(40, 0, 40, 40), Rect(10, 4, 32, 32));
  }

  /**
   * The collision scan reads the map's width from its first row: the wall
   * in the longer second row of `0 / 01` never blocks, although the box
   * overlaps its tile.
   */
  lemma WallPastFirstRowIgnored()
    ensures ["0", "01"][1][1] == '1' && Collides(Rect(45, 45, 32, 32), TileRect(Pos(1, 1)))
    ensures !WallHit(["0", "01"], Rect(45, 45, 32, 32))
  {
  }
}
