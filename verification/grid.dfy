/** The playing field and the falling piece (field/field.go).

    A field is a Width x Height grid of color codes stored row-major, 0 meaning
    empty. A piece (Block) is a small shape matrix, also row-major, whose
    top-left corner sits at (X, Y) in field coordinates. Cell i of a block
    lands on field cell (i % Width + X, i / Width + Y). */
module Grid {
  import RowMajor

  /** The falling piece. It is a value: every operation on it builds a new one. */
  datatype Block = Block(Width: nat, Height: nat, X: int, Y: int, Matrix: seq<int>)

  /** The value held by a Field object at one moment. */
  datatype Board = Board(Width: nat, Height: nat, Matrix: seq<int>)

  predicate ShapeOk(b: Block) {
    |b.Matrix| == b.Width * b.Height
  }

  predicate BoardOk(f: Board) {
    |f.Matrix| == f.Width * f.Height
  }

  /** 0 is empty; 1..7 are the colors of the seven shapes. */
  predicate IsColor(c: int) {
    0 <= c <= 7
  }

  predicate Colored(m: seq<int>) {
    forall c :: c in m ==> IsColor(c)
  }

  /** The value of cell (x, y) of a row-major w x h matrix. */
  function Cell(m: seq<int>, w: nat, h: nat, x: int, y: int): int
    requires |m| == w * h && 0 <= x < w && 0 <= y < h
  {
    RowMajor.IndexBound(x, y, w, h);
    m[y * w + x]
  }

  function At(f: Board, x: int, y: int): int
    requires BoardOk(f) && 0 <= x < f.Width && 0 <= y < f.Height
  {
    Cell(f.Matrix, f.Width, f.Height, x, y)
  }

  /** Field column of block cell i. */
  function CellX(b: Block, i: int): int
    requires ShapeOk(b) && 0 <= i < |b.Matrix|
  {
    RowMajor.WidthPositive(i, b.Width, b.Height);
    i % b.Width + b.X
  }

  /** Field row of block cell i. */
  function CellY(b: Block, i: int): int
    requires ShapeOk(b) && 0 <= i < |b.Matrix|
  {
    RowMajor.WidthPositive(i, b.Width, b.Height);
    i / b.Width + b.Y
  }

  /** Every non-empty cell of b lies on the field. */
  predicate OnBoard(f: Board, b: Block)
    requires ShapeOk(b)
  {
    forall i :: 0 <= i < |b.Matrix| && b.Matrix[i] != 0 ==>
      0 <= CellX(b, i) < f.Width && 0 <= CellY(b, i) < f.Height
  }

  /** Block cell i is empty, or it lands on a free cell of the field. */
  predicate CellFits(f: Board, b: Block, i: int)
    requires BoardOk(f) && ShapeOk(b) && 0 <= i < |b.Matrix|
  {
    b.Matrix[i] == 0 ||
    (0 <= CellX(b, i) < f.Width && 0 <= CellY(b, i) < f.Height &&
     At(f, CellX(b, i), CellY(b, i)) == 0)
  }

  /** What Field.CanPlace decides: every non-empty cell of b is on the field and free. */
  predicate Placeable(f: Board, b: Block)
    requires BoardOk(f) && ShapeOk(b)
  {
    forall i :: 0 <= i < |b.Matrix| ==> CellFits(f, b, i)
  }

  lemma PlaceableOnBoard(f: Board, b: Block)
    requires BoardOk(f) && ShapeOk(b) && Placeable(f, b)
    ensures OnBoard(f, b)
  {
    forall i | 0 <= i < |b.Matrix| && b.Matrix[i] != 0
      ensures 0 <= CellX(b, i) < f.Width && 0 <= CellY(b, i) < f.Height
    {
      assert CellFits(f, b, i);
    }
  }

  // ---------------------------------------------------------------------
  // Drawing a block onto the field

  /** Field index t falls inside the bounding box of b. */
  predicate InBox(f: Board, b: Block, t: int)
    requires BoardOk(f) && 0 <= t < |f.Matrix|
  {
    RowMajor.WidthPositive(t, f.Width, f.Height);
    0 <= t % f.Width - b.X < b.Width && 0 <= t / f.Width - b.Y < b.Height
  }

  /** The block cell that covers field index t. */
  function CoverIndex(f: Board, b: Block, t: int): (i: int)
    requires BoardOk(f) && ShapeOk(b) && 0 <= t < |f.Matrix| && InBox(f, b, t)
    ensures 0 <= i < |b.Matrix|
  {
    RowMajor.WidthPositive(t, f.Width, f.Height);
    RowMajor.IndexBound(t % f.Width - b.X, t / f.Width - b.Y, b.Width, b.Height);
    (t / f.Width - b.Y) * b.Width + (t % f.Width - b.X)
  }

  /** The color at field index t once b has been drawn over f. */
  function Paint(f: Board, b: Block, t: int): int
    requires BoardOk(f) && ShapeOk(b) && 0 <= t < |f.Matrix|
  {
    if InBox(f, b, t) && b.Matrix[CoverIndex(f, b, t)] != 0 then b.Matrix[CoverIndex(f, b, t)]
    else f.Matrix[t]
  }

  /** The field with b laid over it: the non-empty cells of b win, everything else stays. */
  function Drawn(f: Board, b: Block): (r: Board)
    requires BoardOk(f) && ShapeOk(b)
    ensures BoardOk(r) && r.Width == f.Width && r.Height == f.Height
  {
    f.(Matrix := seq(|f.Matrix|, t requires 0 <= t < |f.Matrix| => Paint(f, b, t)))
  }

  /** Block cell i, when on the field, lands on the field index whose cover is i. */
  lemma TargetCovered(f: Board, b: Block, i: int)
    requires BoardOk(f) && ShapeOk(b) && 0 <= i < |b.Matrix|
    requires 0 <= CellX(b, i) < f.Width && 0 <= CellY(b, i) < f.Height
    ensures 0 <= CellY(b, i) * f.Width + CellX(b, i) < |f.Matrix|
    ensures InBox(f, b, CellY(b, i) * f.Width + CellX(b, i))
    ensures CoverIndex(f, b, CellY(b, i) * f.Width + CellX(b, i)) == i
  {
    var x, y := CellX(b, i), CellY(b, i);
    var t := y * f.Width + x;
    RowMajor.IndexBound(x, y, f.Width, f.Height);
    RowMajor.DivMod(y, x, f.Width);
    RowMajor.Split(i, b.Width, b.Height);
  }

  /** A covered field index is where its covering block cell lands. */
  lemma CoverTarget(f: Board, b: Block, t: int)
    requires BoardOk(f) && ShapeOk(b) && 0 <= t < |f.Matrix| && InBox(f, b, t)
    ensures t == CellY(b, CoverIndex(f, b, t)) * f.Width + CellX(b, CoverIndex(f, b, t))
  {
    RowMajor.Split(t, f.Width, f.Height);
    var lx, ly := t % f.Width - b.X, t / f.Width - b.Y;
    RowMajor.DivMod(ly, lx, b.Width);
  }

  /** Drawing writes each non-empty block cell's color at the field cell it lands on. */
  lemma DrawnAt(f: Board, b: Block, i: int)
    requires BoardOk(f) && ShapeOk(b) && OnBoard(f, b)
    requires 0 <= i < |b.Matrix| && b.Matrix[i] != 0
    ensures At(Drawn(f, b), CellX(b, i), CellY(b, i)) == b.Matrix[i]
  {
    TargetCovered(f, b, i);
  }

  /** Drawing leaves every field cell that no non-empty block cell lands on as it was. */
  lemma DrawnElsewhere(f: Board, b: Block, x: int, y: int)
    requires BoardOk(f) && ShapeOk(b)
    requires 0 <= x < f.Width && 0 <= y < f.Height
    requires forall i :: 0 <= i < |b.Matrix| && b.Matrix[i] != 0 ==> CellX(b, i) != x || CellY(b, i) != y
    ensures At(Drawn(f, b), x, y) == At(f, x, y)
  {
    var t := y * f.Width + x;
    RowMajor.IndexBound(x, y, f.Width, f.Height);
    RowMajor.DivMod(y, x, f.Width);
    if InBox(f, b, t) {
      var lx, ly := x - b.X, y - b.Y;
      var i := CoverIndex(f, b, t);
      assert i == ly * b.Width + lx;
      RowMajor.DivMod(ly, lx, b.Width);
      assert CellX(b, i) == x && CellY(b, i) == y;
    }
  }

  /** Once drawn, a block with a non-empty cell can no longer be placed where it was drawn. */
  lemma DrawnNotPlaceable(f: Board, b: Block)
    requires BoardOk(f) && ShapeOk(b) && OnBoard(f, b)
    requires exists i :: 0 <= i < |b.Matrix| && b.Matrix[i] != 0
    ensures !Placeable(Drawn(f, b), b)
  {
    var i :| 0 <= i < |b.Matrix| && b.Matrix[i] != 0;
    DrawnAt(f, b, i);
    assert !CellFits(Drawn(f, b), b, i);
  }

  /** Drawing never empties a cell: an occupied cell stays occupied. */
  lemma DrawnKeepsOccupied(f: Board, b: Block, x: int, y: int)
    requires BoardOk(f) && ShapeOk(b)
    requires 0 <= x < f.Width && 0 <= y < f.Height && At(f, x, y) != 0
    ensures At(Drawn(f, b), x, y) != 0
  {
    RowMajor.IndexBound(x, y, f.Width, f.Height);
  }

  lemma DrawnColored(f: Board, b: Block)
    requires BoardOk(f) && ShapeOk(b) && Colored(f.Matrix) && Colored(b.Matrix)
    ensures Colored(Drawn(f, b).Matrix)
  {
    var m := Drawn(f, b).Matrix;
    forall t | 0 <= t < |m| ensures IsColor(m[t]) {
      assert m[t] == Paint(f, b, t);
      if InBox(f, b, t) {
        assert b.Matrix[CoverIndex(f, b, t)] in b.Matrix;
      } else {
        assert f.Matrix[t] in f.Matrix;
      }
    }
  }

  // ---------------------------------------------------------------------
  // The seven shapes

  /** The shape table; k stands for the uniform draw rand.Intn(7). */
  function NewBlock(k: int): (b: Block)
    requires 0 <= k < 7
    ensures ShapeOk(b) && b.Width == b.Height && 2 <= b.Width <= 4
    ensures b.X == 0 && b.Y == 0
    ensures forall c :: c in b.Matrix ==> c == 0 || c == k + 1
    ensures k + 1 in b.Matrix
  {
    if k == 0 then Block(3, 3, 0, 0, [0, 1, 0,
                                      1, 1, 1,
                                      0, 0, 0])
    else if k == 1 then Block(2, 2, 0, 0, [2, 2,
                                           2, 2])
    else if k == 2 then Block(3, 3, 0, 0, [3, 3, 0,
                                           0, 3, 0,
                                           0, 3, 0])
    else if k == 3 then Block(3, 3, 0, 0, [0, 4, 4,
                                           0, 4, 0,
                                           0, 4, 0])
    else if k == 4 then Block(4, 4, 0, 0, [0, 0, 0, 0,
                                           5, 5, 5, 5,
                                           0, 0, 0, 0,
                                           0, 0, 0, 0])
    else if k == 5 then Block(3, 3, 0, 0, [6, 6, 0,
                                           0, 6, 6,
                                           0, 0, 0])
    else Block(3, 3, 0, 0, [0, 7, 7,
                            7, 7, 0,
                            0, 0, 0])
  }

  // ---------------------------------------------------------------------
  // Rotation

  /** Where Rotate writes the old cell i of a w x h matrix (x = i % w, y = i / w). */
  function RotationTarget(w: nat, h: nat, i: int): int
    requires 0 <= i < w * h
  {
    RowMajor.WidthPositive(i, w, h);
    (i % w) * h + (h - 1 - i / w)
  }

  /** The old cell that Rotate writes at index t: the inverse of RotationTarget. */
  function RotationSource(w: nat, h: nat, t: int): (i: int)
    requires 0 <= t < w * h
    ensures 0 <= i < w * h
  {
    RowMajor.Split(t, h, w);
    RowMajor.IndexBound(t / h, h - 1 - t % h, w, h);
    (h - 1 - t % h) * w + t / h
  }

  lemma SourceOfTarget(w: nat, h: nat, i: int)
    requires 0 <= i < w * h
    ensures 0 <= RotationTarget(w, h, i) < w * h
    ensures RotationSource(w, h, RotationTarget(w, h, i)) == i
  {
    RowMajor.Split(i, w, h);
    var x, y := i % w, i / w;
    RowMajor.IndexBound(h - 1 - y, x, h, w);
    RowMajor.DivMod(x, h - 1 - y, h);
  }

  lemma TargetOfSource(w: nat, h: nat, t: int)
    requires 0 <= t < w * h
    ensures RotationTarget(w, h, RotationSource(w, h, t)) == t
  {
    RowMajor.Split(t, h, w);
    RowMajor.DivMod(h - 1 - t % h, t / h, w);
  }

  /** b turned a quarter clockwise; Width and Height are kept as they were. */
  function Rotated(b: Block): (r: Block)
    requires ShapeOk(b)
    ensures ShapeOk(r) && r.Width == b.Width && r.Height == b.Height && r.X == b.X && r.Y == b.Y
  {
    b.(Matrix := seq(|b.Matrix|, t requires 0 <= t < |b.Matrix| =>
                       b.Matrix[RotationSource(b.Width, b.Height, t)]))
  }

  /** Old cell (x, y) ends up at index x * Height + (Height - 1 - y). */
  lemma RotatedAt(b: Block, x: int, y: int)
    requires ShapeOk(b) && 0 <= x < b.Width && 0 <= y < b.Height
    ensures 0 <= y * b.Width + x < |b.Matrix| && 0 <= x * b.Height + (b.Height - 1 - y) < |b.Matrix|
    ensures Rotated(b).Matrix[x * b.Height + (b.Height - 1 - y)] == b.Matrix[y * b.Width + x]
  {
    var t := x * b.Height + (b.Height - 1 - y);
    RowMajor.IndexBound(x, y, b.Width, b.Height);
    RowMajor.IndexBound(b.Height - 1 - y, x, b.Height, b.Width);
    RowMajor.DivMod(x, b.Height - 1 - y, b.Height);
    assert RotationSource(b.Width, b.Height, t) == y * b.Width + x;
  }

  /** Rotate, as written: it copies the matrix, then writes each old cell i at its target
      index. The array stands for the block's own storage, which starts out holding the
      old matrix; b.Matrix stands for the copy that is read from. */
  method Rotate(b: Block) returns (r: Block)
    requires ShapeOk(b)
    ensures r == Rotated(b)
  {
    var n := |b.Matrix|;
    var matrix := new int[n](i requires 0 <= i < n => b.Matrix[i]);
    var i := 0;
    while i < n
      invariant 0 <= i <= n
      invariant forall t :: 0 <= t < n ==>
        matrix[t] == if RotationSource(b.Width, b.Height, t) < i
                     then b.Matrix[RotationSource(b.Width, b.Height, t)] else b.Matrix[t]
    {
      RowMajor.WidthPositive(i, b.Width, b.Height);
      var x := i % b.Width;
      var y := i / b.Width;
      var j := x * b.Height + ((b.Height - 1) - y);
      SourceOfTarget(b.Width, b.Height, i);
      forall t | 0 <= t < n {
        TargetOfSource(b.Width, b.Height, t);
      }
      matrix[j] := b.Matrix[i];
      i := i + 1;
    }
    r := b.(Matrix := matrix[..]);
  }

  /** Reindexing a sequence by a permutation of its indices keeps its multiset of elements. */
  lemma {:induction false} ReindexKeepsMultiset(a: seq<int>, p: seq<int>, s: seq<int>)
    requires |p| == |a| == |s|
    requires forall i :: 0 <= i < |p| ==> 0 <= p[i] < |a| && s[i] == a[p[i]]
    requires forall i, j :: 0 <= i < j < |p| ==> p[i] != p[j]
    ensures multiset(s) == multiset(a)
  {
    if |a| > 0 {
      var n := |a| - 1;
      var k := p[n];
      var a' := a[..k] + a[k + 1..];
      var p' := seq(n, i requires 0 <= i < n => if p[i] < k then p[i] else p[i] - 1);
      var s' := s[..n];
      forall i | 0 <= i < n
        ensures 0 <= p'[i] < |a'| && s'[i] == a'[p'[i]]
      {
        assert p[i] != k;
      }
      ReindexKeepsMultiset(a', p', s');
      assert s == s' + [s[n]];
      assert a == a[..k] + [a[k]] + a[k + 1..];
    }
  }

  /** Rotation only moves cells around: the multiset of cells is unchanged. */
  lemma RotatedPermutes(b: Block)
    requires ShapeOk(b)
    ensures multiset(Rotated(b).Matrix) == multiset(b.Matrix)
  {
    var n := |b.Matrix|;
    var p := seq(n, t requires 0 <= t < n => RotationSource(b.Width, b.Height, t));
    forall i, j | 0 <= i < j < n ensures p[i] != p[j] {
      TargetOfSource(b.Width, b.Height, i);
      TargetOfSource(b.Width, b.Height, j);
    }
    ReindexKeepsMultiset(b.Matrix, p, Rotated(b).Matrix);
  }

  lemma RotatedColored(b: Block)
    requires ShapeOk(b) && Colored(b.Matrix)
    ensures Colored(Rotated(b).Matrix)
  {
    RotatedPermutes(b);
    forall c | c in Rotated(b).Matrix ensures IsColor(c) {
      assert c in multiset(Rotated(b).Matrix);
    }
  }

  /** On a square matrix, the source of index t lies in row n-1-(t%n) and column t/n. */
  lemma SquareSource(n: nat, t: int)
    requires 0 <= t < n * n
    ensures RotationSource(n, n, t) / n == n - 1 - t % n
    ensures RotationSource(n, n, t) % n == t / n
  {
    RowMajor.Split(t, n, n);
    RowMajor.DivMod(n - 1 - t % n, t / n, n);
  }

  /** Four quarter turns of a square index bring every index back to itself. */
  lemma SquareSourceFour(n: nat, t: int)
    requires 0 <= t < n * n
    ensures RotationSource(n, n, RotationSource(n, n, RotationSource(n, n, RotationSource(n, n, t)))) == t
  {
    var s1 := RotationSource(n, n, t);
    var s2 := RotationSource(n, n, s1);
    var s3 := RotationSource(n, n, s2);
    var s4 := RotationSource(n, n, s3);
    SquareSource(n, t);
    SquareSource(n, s1);
    SquareSource(n, s2);
    SquareSource(n, s3);
    RowMajor.Split(t, n, n);
    RowMajor.Split(s4, n, n);
  }

  /** Rotating a square block four times gives the block back. */
  lemma RotatedFourTimes(b: Block)
    requires ShapeOk(b) && b.Width == b.Height
    ensures Rotated(Rotated(Rotated(Rotated(b)))) == b
  {
    var r4 := Rotated(Rotated(Rotated(Rotated(b))));
    forall t | 0 <= t < |b.Matrix| ensures r4.Matrix[t] == b.Matrix[t] {
      SquareSourceFour(b.Width, t);
    }
    assert r4.Matrix == b.Matrix;
  }

  // ---------------------------------------------------------------------
  // Clearing lines, as written

  /** What ClearLines takes for a complete row: its first w-1 cells are non-empty
      (the line slice ends one cell early, so the last column is never looked at). */
  predicate RowComplete(m: seq<int>, w: nat, h: nat, l: int)
    requires |m| == w * h && 0 <= l < h && w >= 1
  {
    RowMajor.RowStart(l, w, h);
    forall c :: l * w <= c < l * w + w - 1 ==> m[c] != 0
  }

  /** Row l removed: the rows above it move down one row, an empty row appears on top. */
  function Collapse(m: seq<int>, w: nat, h: nat, l: int): (r: seq<int>)
    requires |m| == w * h && 0 <= l < h && w >= 1
    ensures |r| == |m|
  {
    RowMajor.RowStart(l, w, h);
    seq(w, _ => 0) + m[..l * w] + m[l * w + w..]
  }

  lemma CollapseAt(m: seq<int>, w: nat, h: nat, l: int, p: int)
    requires |m| == w * h && 0 <= l < h && w >= 1 && 0 <= p < |m|
    ensures Collapse(m, w, h, l)[p] == if p < w then 0 else if p < l * w + w then m[p - w] else m[p]
  {
    RowMajor.RowStart(l, w, h);
  }

  /** The bottom-up scan of ClearLines from row l to row 0: the resulting cells and how
      many rows were removed. After removing row l the scan goes on with row l-1, so the
      row that has just moved into l is not looked at again. */
  function ClearPass(m: seq<int>, w: nat, h: nat, l: int): (r: (seq<int>, nat))
    requires |m| == w * h && l < h && (l < 0 || w >= 1)
    ensures |r.0| == |m|
    decreases l + 1
  {
    if l < 0 then (m, 0)
    else if RowComplete(m, w, h, l) then
      var r := ClearPass(Collapse(m, w, h, l), w, h, l - 1);
      (r.0, r.1 + 1)
    else ClearPass(m, w, h, l - 1)
  }

  lemma CollapseColored(m: seq<int>, w: nat, h: nat, l: int)
    requires |m| == w * h && 0 <= l < h && w >= 1 && Colored(m)
    ensures Colored(Collapse(m, w, h, l))
  {
    RowMajor.RowStart(l, w, h);
    assert Colored(m[..l * w]) && Colored(m[l * w + w..]);
  }

  /** The scan removes at most one row per row it looks at and keeps cells colors. */
  lemma {:induction false} ClearPassBounds(m: seq<int>, w: nat, h: nat, l: int)
    requires |m| == w * h && -1 <= l < h && (l < 0 || w >= 1)
    ensures ClearPass(m, w, h, l).1 <= l + 1
    ensures Colored(m) ==> Colored(ClearPass(m, w, h, l).0)
    decreases l + 1
  {
    if l >= 0 {
      if RowComplete(m, w, h, l) {
        ClearPassBounds(Collapse(m, w, h, l), w, h, l - 1);
        if Colored(m) {
          CollapseColored(m, w, h, l);
        }
      } else {
        ClearPassBounds(m, w, h, l - 1);
      }
    }
  }

  /** Nothing is removed exactly when none of rows 0..l is complete, and then nothing changes. */
  lemma {:induction false} ClearPassNone(m: seq<int>, w: nat, h: nat, l: int)
    requires |m| == w * h && -1 <= l < h && (l < 0 || w >= 1)
    ensures ClearPass(m, w, h, l).1 == 0 <==> forall r :: 0 <= r <= l ==> !RowComplete(m, w, h, r)
    ensures ClearPass(m, w, h, l).1 == 0 ==> ClearPass(m, w, h, l).0 == m
    decreases l + 1
  {
    if l >= 0 && !RowComplete(m, w, h, l) {
      ClearPassNone(m, w, h, l - 1);
    }
  }

  /** Once a row has been removed the top row is empty, and it stays empty. */
  lemma {:induction false} ClearPassTopEmpty(m: seq<int>, w: nat, h: nat, l: int)
    requires |m| == w * h && -1 <= l < h && (l < 0 || w >= 1)
    ensures ClearPass(m, w, h, l).1 > 0 ==>
              forall c :: 0 <= c < w ==> c < |m| && ClearPass(m, w, h, l).0[c] == 0
    decreases l + 1
  {
    if l >= 0 {
      if RowComplete(m, w, h, l) {
        var m' := Collapse(m, w, h, l);
        RowMajor.MulMono(1, h, w);
        forall c | 0 <= c < w ensures m'[c] == 0 {
          CollapseAt(m, w, h, l, c);
        }
        ClearPassTopEmptyFrom(m', w, h, l - 1);
      } else {
        ClearPassTopEmpty(m, w, h, l - 1);
      }
    }
  }

  /** A scan that starts with an empty top row ends with one. */
  lemma {:induction false} ClearPassTopEmptyFrom(m: seq<int>, w: nat, h: nat, l: int)
    requires |m| == w * h && -1 <= l < h && (l < 0 || w >= 1) && w <= |m|
    requires forall c :: 0 <= c < w ==> m[c] == 0
    ensures forall c :: 0 <= c < w ==> ClearPass(m, w, h, l).0[c] == 0
    decreases l + 1
  {
    if l >= 0 {
      if RowComplete(m, w, h, l) {
        var m' := Collapse(m, w, h, l);
        RowMajor.RowStart(l, w, h);
        ClearPassTopEmptyFrom(m', w, h, l - 1);
      } else {
        ClearPassTopEmptyFrom(m, w, h, l - 1);
      }
    }
  }

  /** On a one-column field every row counts as complete, so the scan removes l+1 rows. */
  lemma {:induction false} ClearPassWidthOne(m: seq<int>, h: nat, l: int)
    requires |m| == h && -1 <= l < h
    ensures ClearPass(m, 1, h, l).1 == l + 1
    decreases l + 1
  {
    if l >= 0 {
      assert RowComplete(m, 1, h, l);
      ClearPassWidthOne(Collapse(m, 1, h, l), h, l - 1);
    }
  }

  /** A row whose one empty cell is its last is still taken for complete: the scan
      removes it and counts it. */
  lemma LastColumnIgnored(m: seq<int>, w: nat, h: nat, l: int)
    requires |m| == w * h && w >= 2 && 0 <= l < h
    requires forall x :: 0 <= x < w - 1 ==> Cell(m, w, h, x, l) != 0
    requires Cell(m, w, h, w - 1, l) == 0
    ensures RowComplete(m, w, h, l)
    ensures ClearPass(m, w, h, l).0 == ClearPass(Collapse(m, w, h, l), w, h, l - 1).0
    ensures ClearPass(m, w, h, l).1 == ClearPass(Collapse(m, w, h, l), w, h, l - 1).1 + 1
  {
    RowMajor.RowStart(l, w, h);
    forall c | l * w <= c < l * w + w - 1 ensures m[c] != 0 {
      assert Cell(m, w, h, c - l * w, l) != 0;
    }
  }

  /** Row r >= 1 after removing row l >= r is the old row r - 1, so it is complete exactly
      when that row was. */
  lemma CollapseRowComplete(m: seq<int>, w: nat, h: nat, l: int, r: int)
    requires |m| == w * h && w >= 1 && 0 <= l < h && 1 <= r <= l
    ensures RowComplete(Collapse(m, w, h, l), w, h, r) <==> RowComplete(m, w, h, r - 1)
  {
    var m' := Collapse(m, w, h, l);
    RowMajor.RowStart(r, w, h);
    RowMajor.RowStart(r - 1, w, h);
    RowMajor.RowStart(l, w, h);
    RowMajor.MulMono(r, l, w);
    forall c | r * w <= c < r * w + w - 1 ensures m'[c] == m[c - w] {
      CollapseAt(m, w, h, l, c);
    }
    if RowComplete(m, w, h, r - 1) {
      forall c | r * w <= c < r * w + w - 1 ensures m'[c] != 0 {
        assert m[c - w] != 0;
      }
    }
    if RowComplete(m', w, h, r) {
      forall c | (r - 1) * w <= c < (r - 1) * w + w - 1 ensures m[c] != 0 {
        assert m'[c + w] != 0;
      }
    }
  }

  /** Two stacked complete rows l - 1 and l, with no complete row above them: one scan
      from row l removes row l only and counts 1, and leaves the old row l - 1 at row l,
      where it is still complete, so the next scan removes it. */
  lemma {:induction false} StackedRowsNeedTwoPasses(m: seq<int>, w: nat, h: nat, l: int)
    requires |m| == w * h && w >= 2 && 1 <= l < h
    requires RowComplete(m, w, h, l) && RowComplete(m, w, h, l - 1)
    requires forall r :: 0 <= r < l - 1 ==> !RowComplete(m, w, h, r)
    ensures ClearPass(m, w, h, l) == (Collapse(m, w, h, l), 1)
    ensures RowComplete(ClearPass(m, w, h, l).0, w, h, l)
    ensures ClearPass(ClearPass(m, w, h, l).0, w, h, l).1 >= 1
  {
    var m' := Collapse(m, w, h, l);
    forall r | 0 <= r <= l - 1 ensures !RowComplete(m', w, h, r) {
      if r == 0 {
        CollapseAt(m, w, h, l, 0);
        RowMajor.RowStart(0, w, h);
        assert m'[0] == 0;
      } else {
        CollapseRowComplete(m, w, h, l, r);
      }
    }
    ClearPassNone(m', w, h, l - 1);
    CollapseRowComplete(m, w, h, l, l);
    ClearPassBounds(Collapse(m', w, h, l), w, h, l - 1);
  }

  // ---------------------------------------------------------------------
  // The field object

  class Field {
    const Width: nat
    const Height: nat
    const Matrix: array<int>

    ghost predicate Valid() {
      Matrix.Length == Width * Height
    }

    function Value(): (f: Board)
      reads Matrix
      ensures Valid() ==> BoardOk(f)
    {
      Board(Width, Height, Matrix[..])
    }

    /** NewField: a blank w x h field. */
    constructor (w: nat, h: nat)
      ensures Valid() && fresh(Matrix)
      ensures Width == w && Height == h && Matrix.Length == w * h
      ensures forall i :: 0 <= i < Matrix.Length ==> Matrix[i] == 0
    {
      var m := new int[w * h];
      var i := 0;
      while i < m.Length
        invariant 0 <= i <= m.Length
        invariant forall j :: 0 <= j < i ==> m[j] == 0
      {
        m[i] := 0;
        i := i + 1;
      }
      Width, Height, Matrix := w, h, m;
    }

    /** A field with the same size and cells, in storage of its own. */
    method Copy() returns (c: Field)
      requires Valid()
      ensures fresh(c) && fresh(c.Matrix) && c.Valid()
      ensures c.Value() == Value()
    {
      c := new Field(Width, Height);
      forall i | 0 <= i < c.Matrix.Length {
        c.Matrix[i] := Matrix[i];
      }
    }

    /** Writes the non-empty cells of b into the field without looking at what is there. */
    method DrawBlock(b: Block)
      requires Valid() && ShapeOk(b) && OnBoard(Value(), b)
      modifies Matrix
      ensures Value() == Drawn(old(Value()), b)
    {
      ghost var f0 := Value();
      var i := 0;
      while i < |b.Matrix|
        invariant 0 <= i <= |b.Matrix|
        invariant forall t :: 0 <= t < Matrix.Length ==>
          Matrix[t] == if InBox(f0, b, t) && CoverIndex(f0, b, t) < i && b.Matrix[CoverIndex(f0, b, t)] != 0
                       then b.Matrix[CoverIndex(f0, b, t)] else f0.Matrix[t]
      {
        RowMajor.WidthPositive(i, b.Width, b.Height);
        var x := i % b.Width + b.X;
        var y := i / b.Width + b.Y;
        var targeti := y * Width + x;
        if b.Matrix[i] != 0 {
          TargetCovered(f0, b, i);
          forall t | 0 <= t < Matrix.Length && InBox(f0, b, t) {
            CoverTarget(f0, b, t);
          }
          Matrix[targeti] := b.Matrix[i];
        }
        i := i + 1;
      }
      assert Matrix[..] == Drawn(f0, b).Matrix;
    }

    /** CanMove: whether b, shifted by (dx, dy), could be placed. */
    method CanMove(b: Block, dx: int, dy: int) returns (ok: bool)
      requires Valid() && ShapeOk(b)
      ensures ok == Placeable(Value(), b.(X := b.X + dx, Y := b.Y + dy))
    {
      ghost var moved := b.(X := b.X + dx, Y := b.Y + dy);
      var i := 0;
      while i < |b.Matrix|
        invariant 0 <= i <= |b.Matrix|
        invariant forall j :: 0 <= j < i ==> CellFits(Value(), moved, j)
      {
        RowMajor.WidthPositive(i, b.Width, b.Height);
        var x := i % b.Width + b.X + dx;
        var y := i / b.Width + b.Y + dy;
        if b.Matrix[i] != 0 {
          if x < 0 || y < 0 || x >= Width || y >= Height {
            assert !CellFits(Value(), moved, i);
            return false;
          }
          RowMajor.IndexBound(x, y, Width, Height);
          var targeti := y * Width + x;
          if Matrix[targeti] != 0 && b.Matrix[i] != 0 {
            assert !CellFits(Value(), moved, i);
            return false;
          }
        }
        i := i + 1;
      }
      return true;
    }

    /** CanPlace: every non-empty cell of b is on the field and lands on an empty cell. */
    method CanPlace(b: Block) returns (ok: bool)
      requires Valid() && ShapeOk(b)
      ensures ok == Placeable(Value(), b)
    {
      var i := 0;
      while i < |b.Matrix|
        invariant 0 <= i <= |b.Matrix|
        invariant forall j :: 0 <= j < i ==> CellFits(Value(), b, j)
      {
        RowMajor.WidthPositive(i, b.Width, b.Height);
        var x := i % b.Width + b.X;
        var y := i / b.Width + b.Y;
        if b.Matrix[i] != 0 {
          if x < 0 || y < 0 || x >= Width || y >= Height {
            assert !CellFits(Value(), b, i);
            return false;
          }
          RowMajor.IndexBound(x, y, Width, Height);
          var targeti := y * Width + x;
          if Matrix[targeti] != 0 && b.Matrix[i] != 0 {
            assert !CellFits(Value(), b, i);
            return false;
          }
        }
        i := i + 1;
      }
      return true;
    }

    /** The completeness test of ClearLines for row l (the first Width-1 cells). */
    method LineComplete(l: int) returns (complete: bool)
      requires Valid() && Width >= 1 && 0 <= l < Height
      ensures complete == RowComplete(Matrix[..], Width, Height, l)
    {
      RowMajor.RowStart(l, Width, Height);
      var linestart := l * Width;
      var lineend := (l + 1) * Width - 1;
      complete := true;
      var i := linestart;
      while i < lineend
        invariant linestart <= i <= lineend
        invariant complete <==> forall c :: linestart <= c < i ==> Matrix[c] != 0
      {
        if Matrix[i] == 0 {
          complete := false;
        }
        i := i + 1;
      }
    }

    /** Shifts every row above row l down by one, then blanks the top row. */
    method RemoveRow(l: int)
      requires Valid() && Width >= 1 && 0 <= l < Height
      modifies Matrix
      ensures Matrix[..] == Collapse(old(Matrix[..]), Width, Height, l)
    {
      ghost var m0 := Matrix[..];
      ShiftDown(l);
      EraseTop();
      forall p | 0 <= p < Matrix.Length ensures Matrix[p] == Collapse(m0, Width, Height, l)[p] {
        CollapseAt(m0, Width, Height, l, p);
      }
      assert Matrix[..] == Collapse(m0, Width, Height, l);
    }

    /** Copies every cell above row l one row down, from the last such cell to the first. */
    method ShiftDown(l: int)
      requires Valid() && Width >= 1 && 0 <= l < Height
      modifies Matrix
      ensures l * Width + Width <= Matrix.Length
      ensures forall p :: 0 <= p < Width ==> Matrix[p] == old(Matrix[p])
      ensures forall p :: Width <= p < l * Width + Width ==> Matrix[p] == old(Matrix[p - Width])
      ensures forall p :: l * Width + Width <= p < Matrix.Length ==> Matrix[p] == old(Matrix[p])
    {
      RowMajor.RowStart(l, Width, Height);
      ghost var m0 := Matrix[..];
      var linestart := l * Width;
      var i := linestart - 1;
      while i >= 0
        invariant -1 <= i < linestart
        invariant forall p :: 0 <= p <= i + Width ==> Matrix[p] == m0[p]
        invariant forall p :: i + Width < p < linestart + Width ==> Matrix[p] == m0[p - Width]
        invariant forall p :: linestart + Width <= p < Matrix.Length ==> Matrix[p] == m0[p]
      {
        Matrix[i + Width] := Matrix[i];
        i := i - 1;
      }
    }

    /** Sets the top row to empty; every other cell is unchanged. */
    method EraseTop()
      requires Valid() && Width >= 1 && Height >= 1
      modifies Matrix
      ensures forall p :: 0 <= p < Width ==> Matrix[p] == 0
      ensures forall p :: Width <= p < Matrix.Length ==> Matrix[p] == old(Matrix[p])
    {
      RowMajor.RowStart(0, Width, Height);
      var i := 0;
      while i < Width
        invariant 0 <= i <= Width
        invariant forall p :: 0 <= p < i ==> Matrix[p] == 0
        invariant forall p :: i <= p < Matrix.Length ==> Matrix[p] == old(Matrix[p])
      {
        Matrix[i] := 0;
        i := i + 1;
      }
    }

    /** Scans the rows from the bottom up, removes the complete ones and counts them. */
    method ClearLines() returns (linesCleared: nat)
      requires Valid() && (Width >= 1 || Height == 0)
      modifies Matrix
      ensures (Matrix[..], linesCleared) == ClearPass(old(Matrix[..]), Width, Height, Height - 1)
    {
      ghost var result := ClearPass(Matrix[..], Width, Height, Height - 1);
      linesCleared := 0;
      var l := Height - 1;
      while l >= 0
        invariant -1 <= l < Height
        invariant ClearPass(Matrix[..], Width, Height, l).0 == result.0
        invariant linesCleared + ClearPass(Matrix[..], Width, Height, l).1 == result.1
      {
        var lineComplete := LineComplete(l);
        if lineComplete {
          RemoveRow(l);
          linesCleared := linesCleared + 1;
        }
        l := l - 1;
      }
    }
  }
}
