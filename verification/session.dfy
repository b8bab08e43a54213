/** The game session (gamestate/gamestate.go): one field, the block that is falling
    on it, and the number of lines cleared so far. The shape of every new block,
    drawn at random by the original, is the parameter k in [0, 7). */
module Session {
  import Grid
  import RowMajor

  /** The translated copy that Nudge tries: delta rows down when vertical, delta columns
      right otherwise. */
  function Nudged(b: Grid.Block, delta: int, vertical: bool): Grid.Block {
    if vertical then b.(Y := b.Y + delta) else b.(X := b.X + delta)
  }

  /** The block spawned for shape k on a field w wide: the table's shape, centered. */
  function Spawn(k: int, w: nat): Grid.Block
    requires 0 <= k < 7
  {
    var b := Grid.NewBlock(k);
    b.(X := w / 2 - b.Width / 2)
  }

  /** What a session keeps true between calls: the field and the block are well formed and
      only hold colors, the field is large enough for every shape, and every non-empty cell
      of the block is on the field (so that locking it writes inside the field). */
  predicate Consistent(f: Grid.Board, b: Grid.Block) {
    Grid.BoardOk(f) && f.Width >= 4 && f.Height >= 3 && Grid.Colored(f.Matrix) &&
    Grid.ShapeOk(b) && Grid.Colored(b.Matrix) && Grid.OnBoard(f, b)
  }

  /** A spawned block lies on the field, at the top, centered. */
  lemma SpawnOnBoard(f: Grid.Board, k: int)
    requires Grid.BoardOk(f) && f.Width >= 4 && f.Height >= 3 && 0 <= k < 7
    ensures Grid.ShapeOk(Spawn(k, f.Width)) && Grid.OnBoard(f, Spawn(k, f.Width))
    ensures Spawn(k, f.Width).Y == 0 && Spawn(k, f.Width).X == f.Width / 2 - Spawn(k, f.Width).Width / 2
  {
    var b := Spawn(k, f.Width);
    forall i | 0 <= i < |b.Matrix| && b.Matrix[i] != 0
      ensures 0 <= Grid.CellX(b, i) < f.Width && 0 <= Grid.CellY(b, i) < f.Height
    {
      RowMajor.Split(i, b.Width, b.Height);
    }
  }

  /** A placeable block with colors only keeps the session consistent. */
  lemma PlaceableConsistent(f: Grid.Board, b: Grid.Block, m: Grid.Block)
    requires Consistent(f, b) && Grid.ShapeOk(m) && Grid.Colored(m.Matrix) && Grid.Placeable(f, m)
    ensures Consistent(f, m)
  {
    Grid.PlaceableOnBoard(f, m);
  }

  /** A rotation that is accepted keeps the session consistent. */
  lemma RotateKeepsConsistent(f: Grid.Board, b: Grid.Block)
    requires Consistent(f, b) && Grid.Placeable(f, Grid.Rotated(b))
    ensures Consistent(f, Grid.Rotated(b))
  {
    Grid.RotatedColored(b);
    PlaceableConsistent(f, b, Grid.Rotated(b));
  }

  /** Locking the block and spawning shape k keeps the session consistent. */
  lemma LockKeepsConsistent(f: Grid.Board, b: Grid.Block, k: int)
    requires Consistent(f, b) && 0 <= k < 7
    ensures Consistent(Grid.Drawn(f, b), Spawn(k, f.Width))
  {
    Grid.DrawnColored(f, b);
    SpawnOnBoard(Grid.Drawn(f, b), k);
  }

  /** Clearing lines keeps the session consistent. */
  lemma ClearKeepsConsistent(f: Grid.Board, b: Grid.Block)
    requires Consistent(f, b)
    ensures Consistent(f.(Matrix := Grid.ClearPass(f.Matrix, f.Width, f.Height, f.Height - 1).0), b)
  {
    Grid.ClearPassBounds(f.Matrix, f.Width, f.Height, f.Height - 1);
  }

  /** The lock branch does not look at the block it spawns: when a cell under the new
      block was already occupied, the new block cannot be placed where it appears. */
  lemma LockedSpawnBlocked(f: Grid.Board, b: Grid.Block, k: int, i: int)
    requires Consistent(f, b) && 0 <= k < 7
    requires 0 <= i < |Spawn(k, f.Width).Matrix| && Spawn(k, f.Width).Matrix[i] != 0
    requires 0 <= Grid.CellX(Spawn(k, f.Width), i) < f.Width && 0 <= Grid.CellY(Spawn(k, f.Width), i) < f.Height
    requires Grid.At(f, Grid.CellX(Spawn(k, f.Width), i), Grid.CellY(Spawn(k, f.Width), i)) != 0
    ensures !Grid.Placeable(Grid.Drawn(f, b), Spawn(k, f.Width))
  {
    var s := Spawn(k, f.Width);
    Grid.DrawnKeepsOccupied(f, b, Grid.CellX(s, i), Grid.CellY(s, i));
    assert !Grid.CellFits(Grid.Drawn(f, b), s, i);
  }

  class GameState {
    const Field: Grid.Field
    var Block: Grid.Block
    var LinesCleared: int

    ghost predicate Valid()
      reads this, Field.Matrix
    {
      Field.Valid() && Consistent(Field.Value(), Block) && LinesCleared >= 0
    }

    /** New: a blank w x h field, shape k centered in the top row, no lines cleared. */
    constructor (w: nat, h: nat, k: int)
      requires w >= 4 && h >= 3 && 0 <= k < 7
      ensures Valid() && fresh(Field) && fresh(Field.Matrix)
      ensures Field.Width == w && Field.Height == h
      ensures forall i :: 0 <= i < Field.Matrix.Length ==> Field.Matrix[i] == 0
      ensures Block == Spawn(k, w)
      ensures LinesCleared == 0
    {
      Field := new Grid.Field(w, h);
      Block := Grid.NewBlock(k);
      LinesCleared := 0;
      new;
      CenterBlock();
      SpawnOnBoard(Field.Value(), k);
      assert Grid.Colored(Field.Matrix[..]);
    }

    /** centerBlock: moves the block to the middle column range; nothing else changes. */
    method CenterBlock()
      modifies this
      ensures Block == old(Block).(X := Field.Width / 2 - old(Block).Width / 2)
      ensures LinesCleared == old(LinesCleared)
    {
      Block := Block.(X := Field.Width / 2 - Block.Width / 2);
    }

    /** Moves the block one column left when the moved block can be placed. */
    method NudgeLeft()
      requires Valid()
      modifies this
      ensures Valid() && LinesCleared == old(LinesCleared)
      ensures Block == if Grid.Placeable(Field.Value(), Nudged(old(Block), -1, false))
                       then Nudged(old(Block), -1, false) else old(Block)
    {
      var tmpBlck := Block;
      tmpBlck := tmpBlck.(X := tmpBlck.X - 1);
      var ok := Field.CanPlace(tmpBlck);
      if ok {
        PlaceableConsistent(Field.Value(), Block, tmpBlck);
        Block := Block.(X := Block.X - 1);
      }
    }

    /** Tries to move the block by delta. An accepted move replaces the block; a rejected
        downward move locks the block into the field and spawns shape k; any other
        rejected move changes nothing. */
    method Nudge(delta: int, vertical: bool, k: int)
      requires Valid() && 0 <= k < 7
      modifies this, Field.Matrix
      ensures Valid() && LinesCleared == old(LinesCleared)
      ensures Grid.Placeable(old(Field.Value()), Nudged(old(Block), delta, vertical)) ==>
                Block == Nudged(old(Block), delta, vertical) && Field.Value() == old(Field.Value())
      ensures !Grid.Placeable(old(Field.Value()), Nudged(old(Block), delta, vertical)) && vertical && delta > 0 ==>
                Field.Value() == Grid.Drawn(old(Field.Value()), old(Block)) && Block == Spawn(k, Field.Width)
      ensures !Grid.Placeable(old(Field.Value()), Nudged(old(Block), delta, vertical)) && !(vertical && delta > 0) ==>
                Block == old(Block) && Field.Value() == old(Field.Value())
      ensures Grid.Placeable(old(Field.Value()), old(Block)) &&
              (Grid.Placeable(old(Field.Value()), Nudged(old(Block), delta, vertical)) || !(vertical && delta > 0)) ==>
                Grid.Placeable(Field.Value(), Block)
    {
      var oldBlck := Block;
      var tmpBlck := oldBlck;
      if vertical {
        tmpBlck := tmpBlck.(Y := tmpBlck.Y + delta);
      } else {
        tmpBlck := tmpBlck.(X := tmpBlck.X + delta);
      }
      var ok := Field.CanPlace(tmpBlck);
      if ok {
        PlaceableConsistent(Field.Value(), Block, tmpBlck);
        Block := tmpBlck;
      } else if vertical && delta > 0 {
        ghost var f0 := Field.Value();
        Field.DrawBlock(oldBlck);
        Block := Grid.NewBlock(k);
        CenterBlock();
        LockKeepsConsistent(f0, oldBlck, k);
      }
    }

    /** Replaces the block by its rotation when the rotation can be placed. */
    method RotateBlock()
      requires Valid()
      modifies this
      ensures Valid() && LinesCleared == old(LinesCleared)
      ensures Block == if Grid.Placeable(Field.Value(), Grid.Rotated(old(Block)))
                       then Grid.Rotated(old(Block)) else old(Block)
      ensures Grid.Placeable(Field.Value(), old(Block)) ==> Grid.Placeable(Field.Value(), Block)
    {
      var tmpBlck := Grid.Rotate(Block);
      var ok := Field.CanPlace(tmpBlck);
      if ok {
        RotateKeepsConsistent(Field.Value(), Block);
        Block := tmpBlck;
      }
    }

    /** Clears lines and adds their number to the counter. */
    method ClearCompleteLines()
      requires Valid()
      modifies this, Field.Matrix
      ensures Valid() && Block == old(Block)
      ensures Field.Matrix[..] == Grid.ClearPass(old(Field.Matrix[..]), Field.Width, Field.Height, Field.Height - 1).0
      ensures LinesCleared == old(LinesCleared) + Grid.ClearPass(old(Field.Matrix[..]), Field.Width, Field.Height, Field.Height - 1).1
      ensures LinesCleared >= old(LinesCleared)
    {
      ghost var f0 := Field.Value();
      var n := Field.ClearLines();
      LinesCleared := LinesCleared + n;
      ClearKeepsConsistent(f0, Block);
    }
  }
}
