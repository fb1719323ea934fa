/** Tiles of one gross size: the packer lays them out on a grid without overlap
    and grows only when no cell is free (src/model/Sprite.cpp). */
module SpriteGrid {
  import opened Basics
  import opened SpriteTree
  import opened SpriteGrowth

  /** A column or a row of n cells that begins at cell (cx, cy). */
  datatype Line = Line(cx: nat, cy: nat, vertical: bool, n: nat)

  function Area(w: nat, h: nat, l: Line): Rect {
    Rect(l.cx * w, l.cy * h, if l.vertical then w else l.n * w, if l.vertical then l.n * h else h)
  }

  /** The line without its first cell. */
  function Rest(l: Line): Line
    requires l.n > 0
  {
    if l.vertical then Line(l.cx, l.cy + 1, true, l.n - 1) else Line(l.cx + 1, l.cy, false, l.n - 1)
  }

  predicate OfSize(s: TileSpec, w: nat, h: nat) {
    s.GrossWidth() == w && s.GrossHeight() == h
  }

  /** A strip, or what is left of one: cells filled from the front, each filled
      cell with the rest of the line as its only subnode. */
  ghost predicate IsLine(t: Tree, w: nat, h: nat, l: Line)
    decreases t
  {
    && l.n > 0 && t.bounds == Area(w, h, l)
    && if t.tile.None? then t.kids == []
       else
         && OfSize(t.tile.value, w, h)
         && if l.n == 1 then t.kids == [] else |t.kids| == 1 && IsLine(t.kids[0], w, h, Rest(l))
  }

  function FreeCells(t: Tree, l: Line): nat
    decreases t
  {
    if t.tile.None? then l.n
    else if t.kids == [] || l.n == 0 then 0
    else FreeCells(t.kids[0], Rest(l))
  }

  lemma OneMore(n: nat, a: nat)
    requires n > 0
    ensures n * a == (n - 1) * a + a
    ensures n > 1 && a > 0 ==> n * a > a
  {
  }

  lemma FillLine(t: Tree, w: nat, h: nat, l: Line, s: TileSpec)
    requires w > 0 && h > 0 && IsLine(t, w, h, l) && t.tile.None? && OfSize(s, w, h)
    ensures Takes(t, s) && IsLine(Fill(t, s), w, h, l) && FreeCells(Fill(t, s), l) == l.n - 1
  {
    OneMore(l.n, if l.vertical then h else w);
    OneMore(l.cy + 1, h);
    OneMore(l.cx + 1, w);
    if l.n > 1 {
      var k := Leaf(if l.vertical then Bottom else Right, Area(w, h, Rest(l)));
      assert Leftovers(t.bounds, s) == [k];
      assert IsLine(k, w, h, Rest(l));
    } else {
      assert Leftovers(t.bounds, s) == [];
    }
  }

  lemma {:induction false} LineCanPlace(t: Tree, w: nat, h: nat, l: Line, s: TileSpec)
    requires w > 0 && h > 0 && IsLine(t, w, h, l) && OfSize(s, w, h)
    ensures CanPlace(t, s) <==> FreeCells(t, l) > 0
    decreases t
  {
    if t.tile.None? {
      FillLine(t, w, h, l, s);
    } else if l.n > 1 {
      LineCanPlace(t.kids[0], w, h, Rest(l), s);
    }
  }

  lemma {:induction false} LinePlaces(t: Tree, w: nat, h: nat, l: Line, s: TileSpec, t': Tree)
    requires w > 0 && h > 0 && IsLine(t, w, h, l) && OfSize(s, w, h) && Placed(t, s, t')
    ensures IsLine(t', w, h, l) && FreeCells(t', l) == FreeCells(t, l) - 1 && t'.role == t.role
    decreases t
  {
    if t.tile.None? {
      FillLine(t, w, h, l, s);
    } else {
      var i :| 0 <= i < |t.kids| && PlacedIn(t, s, t', i);
      LinePlaces(t.kids[0], w, h, Rest(l), s, t'.kids[0]);
      PlacedCanPlace(t.kids[0], s, t'.kids[0]);
      LineCanPlace(t.kids[0], w, h, Rest(l), s);
    }
  }

  // ----- The whole sheet -----

  function Cells(lines: seq<Line>): nat {
    if lines == [] then 1 else Cells(lines[..|lines| - 1]) + lines[|lines| - 1].n
  }

  /** A sheet of cols x rows cells: the first tile in the corner, and strips that
      are full except for the last one, which holds a tile at least. */
  ghost predicate IsGrid(t: Tree, w: nat, h: nat, cols: nat, rows: nat, lines: seq<Line>) {
    && t.role.Root? && t.tile.Some? && OfSize(t.tile.value, w, h)
    && cols > 0 && rows > 0 && t.bounds == Rect(0, 0, cols * w, rows * h) && Cells(lines) == cols * rows
    && |t.kids| == |lines|
    && (forall i :: 0 <= i < |lines| ==> t.kids[i].role.Strip? && IsLine(t.kids[i], w, h, lines[i]))
    && (forall i :: 0 <= i < |lines| - 1 ==> FreeCells(t.kids[i], lines[i]) == 0)
  }

  function FreeInLast(t: Tree, lines: seq<Line>): nat
    requires |t.kids| == |lines|
  {
    if lines == [] then 0 else FreeCells(t.kids[|lines| - 1], lines[|lines| - 1])
  }

  lemma GridCanPlace(t: Tree, w: nat, h: nat, cols: nat, rows: nat, lines: seq<Line>, s: TileSpec)
    requires w > 0 && h > 0 && IsGrid(t, w, h, cols, rows, lines) && OfSize(s, w, h)
    ensures CanPlace(t, s) <==> FreeInLast(t, lines) > 0
    ensures forall i :: 0 <= i < |lines| - 1 ==> !CanPlace(t.kids[i], s)
  {
    hide IsLine, FreeCells, Area;
    forall i | 0 <= i < |lines|
      ensures CanPlace(t.kids[i], s) <==> FreeCells(t.kids[i], lines[i]) > 0
    {
      LineCanPlace(t.kids[i], w, h, lines[i], s);
    }
  }

  lemma GridPlaces(t: Tree, w: nat, h: nat, cols: nat, rows: nat, lines: seq<Line>, s: TileSpec, t': Tree)
    requires w > 0 && h > 0 && IsGrid(t, w, h, cols, rows, lines) && OfSize(s, w, h) && Placed(t, s, t')
    ensures IsGrid(t', w, h, cols, rows, lines) && FreeInLast(t', lines) == FreeInLast(t, lines) - 1
  {
    GridCanPlace(t, w, h, cols, rows, lines, s);
    PlacedCanPlace(t, s, t');
    hide IsLine, FreeCells, Area, CanPlace, Cells;
    var i :| 0 <= i < |t.kids| && PlacedIn(t, s, t', i);
    PlacedCanPlace(t.kids[i], s, t'.kids[i]);
    assert i == |lines| - 1;
    LinePlaces(t.kids[i], w, h, lines[i], s, t'.kids[i]);
  }

  /** Growing adds one full column or one full row of cells, and the tile takes its first cell. */
  lemma GridExtends(t: Tree, w: nat, h: nat, cols: nat, rows: nat, lines: seq<Line>, s: TileSpec)
    returns (cols': nat, rows': nat, lines': seq<Line>)
    requires w > 0 && h > 0 && IsGrid(t, w, h, cols, rows, lines) && OfSize(s, w, h) && FreeInLast(t, lines) == 0
    ensures IsGrid(Extended(t, s), w, h, cols', rows', lines')
    ensures FreeInLast(Extended(t, s), lines') == lines'[|lines'| - 1].n - 1
    ensures |lines'| == |lines| + 1 && Cells(lines') == Cells(lines) + lines'[|lines|].n
  {
    var g := GrowToFit(t, s);
    var right := g.bounds.h == t.bounds.h;
    StripShape(t, w, h, cols, rows, s);
    GrowthAddsStrip(t, s);
    var l := if right then Line(cols, 0, true, rows) else Line(0, rows, false, cols);
    cols', rows', lines' := if right then cols + 1 else cols, if right then rows else rows + 1, lines + [l];
    MoreCells(cols, rows);
    var strip := g.kids[|t.kids|];
    assert IsLine(strip, w, h, l);
    FillLine(strip, w, h, l, s);
    hide GrowToFit, Fill, Takes, IsLine, FreeCells;
    assert lines'[..|lines|] == lines;
    var e := Extended(t, s);
    assert forall i :: 0 <= i < |lines| ==> e.kids[i] == g.kids[..|t.kids|][i] == t.kids[i] && lines'[i] == lines[i];
  }

  lemma MoreCells(a: nat, b: nat)
    ensures (a + 1) * b == a * b + b && a * (b + 1) == a * b + a
  {
  }

  lemma StripShape(t: Tree, w: nat, h: nat, cols: nat, rows: nat, s: TileSpec)
    requires w > 0 && h > 0 && cols > 0 && rows > 0 && OfSize(s, w, h) && t.bounds == Rect(0, 0, cols * w, rows * h)
    ensures var g := GrowToFit(t, s);
            if g.bounds.h == t.bounds.h
            then g.bounds == Rect(0, 0, (cols + 1) * w, rows * h) && g.kids[|t.kids|] == Leaf(Strip, Area(w, h, Line(cols, 0, true, rows)))
            else g.bounds == Rect(0, 0, cols * w, (rows + 1) * h) && g.kids[|t.kids|] == Leaf(Strip, Area(w, h, Line(0, rows, false, cols)))
  {
    MoreCells(cols, w);
    MoreCells(rows, h);
    assert rows * h >= h by { OneMore(rows, h); }
    hide OfSize;
    assert s.GrossWidth() == w && s.GrossHeight() == h by { Sizes(s, w, h); }
  }

  lemma Sizes(s: TileSpec, w: nat, h: nat)
    requires OfSize(s, w, h)
    ensures s.GrossWidth() == w && s.GrossHeight() == h
  {
  }

  /** The state of the sheet after some tiles. */
  ghost predicate Packed(t: Tree, w: nat, h: nat, cols: nat, rows: nat, lines: seq<Line>, count: nat) {
    && IsGrid(t, w, h, cols, rows, lines)
    && count + FreeInLast(t, lines) == cols * rows
    && (lines != [] ==> FreeInLast(t, lines) < lines[|lines| - 1].n)
  }

  lemma PackedMore(t: Tree, w: nat, h: nat, cols: nat, rows: nat, lines: seq<Line>, count: nat, s: TileSpec, t': Tree)
    returns (cols': nat, rows': nat, lines': seq<Line>)
    requires w > 0 && h > 0 && Packed(t, w, h, cols, rows, lines, count) && OfSize(s, w, h) && Added(t, s, t')
    ensures Packed(t', w, h, cols', rows', lines', count + 1)
    ensures |t'.kids| > |t.kids| ==> count == cols * rows
  {
    GridCanPlace(t, w, h, cols, rows, lines, s);
    hide IsGrid, CanPlace, Extended, OfSize, FreeCells;
    assert |t.kids| == |lines| by { GridCounts(t, w, h, cols, rows, lines); }
    if CanPlace(t, s) {
      GridPlaces(t, w, h, cols, rows, lines, s, t');
      GridCounts(t', w, h, cols, rows, lines);
      cols', rows', lines' := cols, rows, lines;
    } else {
      cols', rows', lines' := GridExtends(t, w, h, cols, rows, lines, s);
      GridCounts(t, w, h, cols, rows, lines);
      GridCounts(t', w, h, cols', rows', lines');
    }
  }

  lemma GridCounts(t: Tree, w: nat, h: nat, cols: nat, rows: nat, lines: seq<Line>)
    requires IsGrid(t, w, h, cols, rows, lines)
    ensures |t.kids| == |lines| && Cells(lines) == cols * rows
  {
  }

  lemma {:induction false} BuiltStaysPacked(t: Tree, w: nat, h: nat, cols: nat, rows: nat, lines: seq<Line>, count: nat,
                                            tiles: seq<TileSpec>, t': Tree)
    returns (cols': nat, rows': nat, lines': seq<Line>)
    requires w > 0 && h > 0 && Packed(t, w, h, cols, rows, lines, count)
    requires (forall s :: s in tiles ==> OfSize(s, w, h)) && Built(t, tiles, t')
    ensures Packed(t', w, h, cols', rows', lines', count + |tiles|)
    decreases |tiles|
  {
    hide Packed, OfSize, Added;
    if tiles == [] {
      cols', rows', lines' := cols, rows, lines;
    } else {
      var m :| Added(t, tiles[0], m) && Built(m, tiles[1..], t');
      cols', rows', lines' := PackedMore(t, w, h, cols, rows, lines, count, tiles[0], m);
      cols', rows', lines' := BuiltStaysPacked(m, w, h, cols', rows', lines', count + 1, tiles[1..], t');
    }
  }

  /** Any number of tiles of one gross size, in any subnode order: the sheet is a
      grid of cells, all tiles are placed, and fewer cells are free than the strip
      added last holds. */
  lemma {:induction false} EqualTilesArePacked(first: TileSpec, tiles: seq<TileSpec>, t: Tree, w: nat, h: nat)
    requires w > 0 && h > 0 && OfSize(first, w, h) && tiles != [] && (forall s :: s in tiles ==> OfSize(s, w, h))
    requires Built(Start(first), tiles, t)
    ensures Tiles(t) == multiset(tiles)
    ensures exists cols, rows, lines :: Packed(t, w, h, cols, rows, lines, |tiles|)
  {
    forall s | s in tiles
      ensures s.GrossWidth() <= first.GrossWidth() || s.GrossHeight() <= first.GrossHeight()
    {
      Sizes(s, w, h);
      Sizes(first, w, h);
    }
    EveryTileIsPlaced(first, tiles, t);
    var m := FirstCell(first, tiles, t, w, h);
    hide Packed, OfSize, Built;
    var cols, rows, lines := BuiltStaysPacked(m, w, h, 1, 1, [], 1, tiles[1..], t);
  }

  lemma {:induction false} FirstCell(first: TileSpec, tiles: seq<TileSpec>, t: Tree, w: nat, h: nat) returns (m: Tree)
    requires w > 0 && h > 0 && OfSize(first, w, h) && tiles != [] && OfSize(tiles[0], w, h)
    requires Built(Start(first), tiles, t)
    ensures Built(m, tiles[1..], t) && Packed(m, w, h, 1, 1, [], 1)
  {
    m :| Added(Start(first), tiles[0], m) && Built(m, tiles[1..], t);
    assert m == Fill(Start(first), tiles[0]);
    assert Leftovers(Start(first).bounds, tiles[0]) == [];
  }

  // ----- Equal tiles do not overlap -----

  ghost predicate OnCell(r: Rect, w: nat, h: nat) {
    exists i: nat, j: nat :: AtCell(r, w, h, i, j)
  }

  predicate AtCell(r: Rect, w: nat, h: nat, i: nat, j: nat) {
    r == Rect(i * w, j * h, w, h)
  }

  lemma {:induction false} LineIsThin(t: Tree, w: nat, h: nat, l: Line, path: seq<nat>)
    requires IsLine(t, w, h, l) && IsPath(t, path)
    ensures |At(t, path).kids| <= 1
    ensures At(t, path).tile.Some? ==> OnCell(Gross(At(t, path)), w, h)
    decreases |path|
  {
    if path == [] {
      if t.tile.Some? { assert AtCell(Gross(t), w, h, l.cx, l.cy); }
    } else {
      LineIsThin(t.kids[path[0]], w, h, Rest(l), path[1..]);
    }
  }

  lemma GridIsThin(t: Tree, w: nat, h: nat, cols: nat, rows: nat, lines: seq<Line>, path: seq<nat>)
    requires IsGrid(t, w, h, cols, rows, lines) && IsPath(t, path)
    ensures path != [] ==> |At(t, path).kids| <= 1
    ensures At(t, path).tile.Some? ==> OnCell(Gross(At(t, path)), w, h)
  {
    if path == [] {
      assert AtCell(Gross(t), w, h, 0, 0);
    } else {
      hide IsLine;
      LineIsThin(t.kids[path[0]], w, h, lines[path[0]], path[1..]);
    }
  }

  /** Tiles of one gross size sit on the cells of the grid and never overlap. */
  lemma {:induction false} EqualTilesDoNotOverlap(first: TileSpec, tiles: seq<TileSpec>, t: Tree, w: nat, h: nat, p: seq<nat>, q: seq<nat>)
    requires w > 0 && h > 0 && OfSize(first, w, h) && tiles != [] && (forall s :: s in tiles ==> OfSize(s, w, h))
    requires Built(Start(first), tiles, t)
    requires IsPath(t, p) && IsPath(t, q) && p != q && At(t, p).tile.Some? && At(t, q).tile.Some?
    ensures !ShareArea(Gross(At(t, p)), Gross(At(t, q)))
    ensures OnCell(Gross(At(t, p)), w, h)
  {
    hide *;
    EqualTilesArePacked(first, tiles, t, w, h);
    var cols, rows, lines :| Packed(t, w, h, cols, rows, lines, |tiles|);
    FirstFits(first, tiles[0], w, h);
    PackedIsGrid(t, w, h, cols, rows, lines, |tiles|);
    GridIsThin(t, w, h, cols, rows, lines, p);
    if ShareArea(Gross(At(t, p)), Gross(At(t, q))) {
      OverlapOnlyInCorners(first, tiles, t, p, q);
      var n :| MeetInCorner(t, p, q, n);
      NoCornerInGrid(t, w, h, cols, rows, lines, p, q, n);
    }
  }

  lemma FirstFits(first: TileSpec, s: TileSpec, w: nat, h: nat)
    requires OfSize(first, w, h) && OfSize(s, w, h)
    ensures Fits(s, Start(first).bounds)
  {
  }

  lemma PackedIsGrid(t: Tree, w: nat, h: nat, cols: nat, rows: nat, lines: seq<Line>, count: nat)
    requires Packed(t, w, h, cols, rows, lines, count)
    ensures IsGrid(t, w, h, cols, rows, lines)
  {
  }

  lemma NoCornerInGrid(t: Tree, w: nat, h: nat, cols: nat, rows: nat, lines: seq<Line>, p: seq<nat>, q: seq<nat>, n: nat)
    requires IsGrid(t, w, h, cols, rows, lines) && IsPath(t, p) && IsPath(t, q)
    requires At(t, p).tile.Some? && At(t, q).tile.Some?
    ensures !MeetInCorner(t, p, q, n)
  {
    hide ShareOnlyIn, Gross, Fits, OnCell;
    if MeetInCorner(t, p, q, n) {
      GridIsThin(t, w, h, cols, rows, lines, p[..n]);
    }
  }
}
