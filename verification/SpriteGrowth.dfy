/** What growing the sheet guarantees: which tiles are placed, how far the sheet
    is from a square, and two sheets on which tiles do overlap
    (src/model/Sprite.cpp). */
module SpriteGrowth {
  import opened Basics
  import opened SpriteTree

  // ----- The first sheet, the split and the growth, in the tiles' own fields -----

  /** A single tile fills its sheet up to the padding. */
  lemma SheetOfOneTile(s: TileSpec, t: Tree)
    requires Built(Start(s), [s], t)
    ensures Start(s).bounds == Rect(0, 0, s.width + 2 * s.padding, s.height + 2 * s.padding)
    ensures t.bounds == Rect(0, 0, s.width + 2 * s.padding, s.height + 2 * s.padding) && t.tile == Some(s) && t.kids == []
  {
    var m :| Added(Start(s), s, m) && Built(m, [s][1..], t);
    assert m == Fill(Start(s), s);
  }

  predicate Cell(r: Rect, x: nat, y: nat) {
    r.x <= x < r.x + r.w && r.y <= y < r.y + r.h
  }

  predicate TileCell(r: Rect, s: TileSpec, x: nat, y: nat) {
    r.x <= x < r.x + s.width + 2 * s.padding && r.y <= y < r.y + s.height + 2 * s.padding
  }

  /** Placing a tile loses no part of the node's area: every unit cell belongs to
      the tile with its padding or to a leftover, not to both, and to both leftovers
      exactly in the corner that lies to the right of the tile and below it. */
  lemma SplitLosesNothing(t: Tree, s: TileSpec, x: nat, y: nat)
    requires Takes(t, s) && t.kids == []
    ensures var kids := Fill(t, s).kids;
            && (forall i, j :: 0 <= i < j < |kids| && Cell(kids[i].bounds, x, y) && Cell(kids[j].bounds, x, y) ==>
                  x >= t.bounds.x + s.width + 2 * s.padding && y >= t.bounds.y + s.height + 2 * s.padding)
            && (Cell(t.bounds, x, y) && x >= t.bounds.x + s.width + 2 * s.padding && y >= t.bounds.y + s.height + 2 * s.padding ==>
                  |kids| == 2 && Cell(kids[0].bounds, x, y) && Cell(kids[1].bounds, x, y))
            && (Cell(t.bounds, x, y) && !TileCell(t.bounds, s, x, y) <==> exists i :: 0 <= i < |kids| && Cell(kids[i].bounds, x, y))
  {
    var kids := Fill(t, s).kids;
    if Cell(t.bounds, x, y) && !TileCell(t.bounds, s, x, y) {
      var i := if y >= t.bounds.y + s.height + 2 * s.padding then 0 else |kids| - 1;
      assert Cell(kids[i].bounds, x, y);
    }
  }

  /** The growth heuristic: to the right if the tile is no taller than the sheet and
      the sheet does not become wider than high by it, else down if the tile is no
      wider than the sheet and the sheet does not become higher than wide by it,
      else to the right if possible at all, else down. */
  lemma GrowthChoice(t: Tree, s: TileSpec)
    ensures var b, w, h := t.bounds, s.width + 2 * s.padding, s.height + 2 * s.padding;
            var right, down := h <= b.h, w <= b.w;
            var g, n := GrowToFit(t, s), |t.kids|;
            && |g.kids| == n + 1
            && if right && (b.w + w <= b.h || !down || b.w < b.h + h)
               then g.bounds == Rect(b.x, b.y, b.w + w, b.h) && g.kids[n].bounds == Rect(b.x + b.w, b.y, w, b.h)
               else g.bounds == Rect(b.x, b.y, b.w, b.h + h) && g.kids[n].bounds == Rect(b.x, b.y + b.h, b.w, h)
  {
  }

  // ----- Which tiles are placed -----

  ghost function Tiles(t: Tree): multiset<TileSpec>
    decreases t, 1
  {
    (if t.tile.Some? then multiset{t.tile.value} else multiset{}) + TilesOf(t.kids)
  }

  ghost function TilesOf(kids: seq<Tree>): multiset<TileSpec>
    decreases kids, 0
  {
    if kids == [] then multiset{} else Tiles(kids[0]) + TilesOf(kids[1..])
  }

  lemma {:induction false} TilesOfMore(kids: seq<Tree>, more: seq<Tree>)
    ensures TilesOf(kids + more) == TilesOf(kids) + TilesOf(more)
    decreases |kids|
  {
    if kids == [] {
      assert kids + more == more;
    } else {
      assert (kids + more)[1..] == kids[1..] + more;
      TilesOfMore(kids[1..], more);
    }
  }

  lemma {:induction false} TilesOfChanged(kids: seq<Tree>, i: nat, k: Tree, added: multiset<TileSpec>)
    requires i < |kids| && Tiles(k) == Tiles(kids[i]) + added
    ensures TilesOf(kids[i := k]) == TilesOf(kids) + added
    decreases |kids|
  {
    if i == 0 {
      assert kids[i := k][1..] == kids[1..];
    } else {
      assert kids[i := k][1..] == kids[1..][i - 1 := k];
      TilesOfChanged(kids[1..], i - 1, k, added);
    }
  }

  lemma LeftoversHoldNothing(r: Rect, s: TileSpec)
    requires Fits(s, r)
    ensures TilesOf(Leftovers(r, s)) == multiset{}
  {
    var l := Leftovers(r, s);
    assert |l| > 0 ==> Tiles(l[0]) == multiset{};
    assert |l| > 1 ==> Tiles(l[1]) == multiset{} && l[1..][0] == l[1];
    assert |l| > 0 ==> TilesOf(l) == Tiles(l[0]) + TilesOf(l[1..]);
    assert |l| > 1 ==> TilesOf(l[1..]) == Tiles(l[1]) + TilesOf(l[1..][1..]);
  }

  lemma FillAddsTile(t: Tree, s: TileSpec)
    requires Takes(t, s)
    ensures Tiles(Fill(t, s)) == Tiles(t) + multiset{s}
  {
    LeftoversHoldNothing(t.bounds, s);
    TilesOfMore(t.kids, Leftovers(t.bounds, s));
  }

  lemma {:induction false} PlacedAddsTile(t: Tree, s: TileSpec, t': Tree)
    requires Placed(t, s, t')
    ensures Tiles(t') == Tiles(t) + multiset{s} && t'.bounds == t.bounds
    decreases t
  {
    if Takes(t, s) {
      FillAddsTile(t, s);
    } else {
      var i :| 0 <= i < |t.kids| && PlacedIn(t, s, t', i);
      PlacedAddsTile(t.kids[i], s, t'.kids[i]);
      TilesOfChanged(t.kids, i, t'.kids[i], multiset{s});
    }
  }

  predicate FitsOneWay(s: TileSpec, r: Rect) {
    s.GrossWidth() <= r.w || s.GrossHeight() <= r.h
  }

  /** The strip added for a tile holds it exactly when the tile fits the root in
      at least one dimension. */
  lemma StripHoldsTile(t: Tree, s: TileSpec)
    ensures Takes(GrowToFit(t, s).kids[|t.kids|], s) <==> FitsOneWay(s, t.bounds)
  {
  }

  lemma ExtendedAddsTile(t: Tree, s: TileSpec)
    ensures Tiles(Extended(t, s)) == Tiles(t) + (if FitsOneWay(s, t.bounds) then multiset{s} else multiset{})
    ensures t.bounds.w <= Extended(t, s).bounds.w && t.bounds.h <= Extended(t, s).bounds.h
  {
    var g, n := GrowToFit(t, s), |t.kids|;
    StripHoldsTile(t, s);
    GrowthAddsStrip(t, s);
    GrowthWidens(t, s);
    hide GrowToFit, Fill, Takes, FitsOneWay;
    var strip := g.kids[n];
    assert g.kids == t.kids + [strip];
    TilesOfMore(t.kids, [strip]);
    assert TilesOf([strip]) == Tiles(strip) + TilesOf([strip][1..]) == multiset{};
    if Takes(strip, s) {
      FillAddsTile(strip, s);
      TilesOfChanged(g.kids, n, Fill(strip, s), multiset{s});
    }
  }

  lemma GrowthWidens(t: Tree, s: TileSpec)
    ensures t.bounds.w <= GrowToFit(t, s).bounds.w && t.bounds.h <= GrowToFit(t, s).bounds.h
  {
  }

  lemma AddedAddsTile(t: Tree, s: TileSpec, t': Tree)
    requires Added(t, s, t')
    ensures Tiles(t') == Tiles(t) + (if CanPlace(t, s) || FitsOneWay(s, t.bounds) then multiset{s} else multiset{})
    ensures t.bounds.w <= t'.bounds.w && t.bounds.h <= t'.bounds.h
  {
    if CanPlace(t, s) { PlacedAddsTile(t, s, t'); } else { ExtendedAddsTile(t, s); }
  }

  lemma {:induction false} BuiltAddsTiles(t: Tree, tiles: seq<TileSpec>, t': Tree)
    requires Built(t, tiles, t') && forall s :: s in tiles ==> FitsOneWay(s, t.bounds)
    ensures Tiles(t') == Tiles(t) + multiset(tiles)
    decreases |tiles|
  {
    if tiles != [] {
      var m :| Added(t, tiles[0], m) && Built(m, tiles[1..], t');
      assert tiles == [tiles[0]] + tiles[1..];
      AddedAddsTile(t, tiles[0], m);
      forall s | s in tiles[1..] ensures FitsOneWay(s, m.bounds) {
        assert s in tiles && FitsOneWay(s, t.bounds);
      }
      hide FitsOneWay, Added;
      BuiltAddsTiles(m, tiles[1..], t');
    }
  }

  /** If no tile exceeds the first one both in width and in height, every tile is
      attached to a node, and to one node only. */
  lemma {:induction false} EveryTileIsPlaced(first: TileSpec, tiles: seq<TileSpec>, t: Tree)
    requires Built(Start(first), tiles, t)
    requires forall s :: s in tiles ==> s.GrossWidth() <= first.GrossWidth() || s.GrossHeight() <= first.GrossHeight()
    ensures Tiles(t) == multiset(tiles)
  {
    BuiltAddsTiles(Start(first), tiles, t);
  }

  /** The sort sees to this, as all tiles of a sprite have the same padding
      (src/services/core/endpoints/SpriteMaker.cpp:76). */
  ghost predicate TallestFirst(tiles: seq<TileSpec>) {
    forall j :: 0 < j < |tiles| ==> tiles[0].GrossHeight() >= tiles[j].GrossHeight()
  }

  /** After its first tile the sheet is at least as tall as that tile, even if the
      tile got no place. */
  lemma FirstTileTells(area: Rect, role: Role, s: TileSpec, t: Tree)
    requires Added(Leaf(role, area), s, t)
    ensures CanPlace(Leaf(role, area), s) ==> FitsOneWay(s, area)
    ensures s.GrossHeight() <= t.bounds.h
  {
    GrowthAddsStrip(Leaf(role, area), s);
    if !CanPlace(Leaf(role, area), s) { ExtendedIsTall(Leaf(role, area), s); }
  }

  lemma ExtendedIsTall(t: Tree, s: TileSpec)
    ensures s.GrossHeight() <= Extended(t, s).bounds.h
  {
    GrowthAddsStrip(t, s);
    assert s.GrossHeight() <= GrowToFit(t, s).bounds.h;
    hide GrowToFit, Fill, Takes;
  }

  /** Which tiles are placed, when the tallest one comes first: all of them if and
      only if that one is no wider or no taller than the initial root; otherwise
      it is the only one that gets no place. */
  lemma {:induction false} PlacedExactly(first: TileSpec, tiles: seq<TileSpec>, t: Tree)
    requires tiles != [] && TallestFirst(tiles) && Built(Start(first), tiles, t)
    ensures Tiles(t) == multiset(tiles) <==> FitsOneWay(tiles[0], Start(first).bounds)
    ensures !FitsOneWay(tiles[0], Start(first).bounds) ==> Tiles(t) == multiset(tiles) - multiset{tiles[0]}
  {
    hide *;
    var root, s, rest := Start(first), tiles[0], tiles[1..];
    EmptyStart(first);
    var m := FirstStep(root, tiles, t);
    FirstTileTells(root.bounds, Root, s, m);
    AddedAddsTile(root, s, m);
    RestFits(tiles, m.bounds);
    BuiltAddsTiles(m, rest, t);
    assert tiles == [s] + rest;
    OneOrNone(s, rest, Tiles(t), FitsOneWay(s, root.bounds));
  }

  lemma EmptyStart(first: TileSpec)
    ensures Start(first) == Leaf(Root, Start(first).bounds) && Tiles(Start(first)) == multiset{}
  {
  }

  lemma FirstStep(t: Tree, tiles: seq<TileSpec>, t': Tree) returns (m: Tree)
    requires tiles != [] && Built(t, tiles, t')
    ensures Added(t, tiles[0], m) && Built(m, tiles[1..], t')
  {
    m :| Added(t, tiles[0], m) && Built(m, tiles[1..], t');
  }

  lemma RestFits(tiles: seq<TileSpec>, r: Rect)
    requires tiles != [] && TallestFirst(tiles) && tiles[0].GrossHeight() <= r.h
    ensures forall s :: s in tiles[1..] ==> FitsOneWay(s, r)
  {
    forall s | s in tiles[1..] ensures FitsOneWay(s, r) {
      var i :| 0 <= i < |tiles| - 1 && tiles[i + 1] == s;
    }
  }

  lemma OneOrNone(s: TileSpec, rest: seq<TileSpec>, placed: multiset<TileSpec>, fits: bool)
    requires placed == (if fits then multiset{s} else multiset{}) + multiset(rest)
    ensures placed == multiset([s] + rest) <==> fits
    ensures !fits ==> placed == multiset([s] + rest) - multiset{s}
  {
    assert placed[s] == multiset(rest)[s] + (if fits then 1 else 0);
  }

  /** A sheet that loses a tile: of two tiles the second in the list is wider and
      taller than the first, which sizes the root. */
  lemma TileCanBeLost(first: TileSpec, s: TileSpec)
    requires s.GrossWidth() > first.GrossWidth() && s.GrossHeight() > first.GrossHeight()
    ensures exists t :: Built(Start(first), [s, first], t) && Tiles(t) == multiset{first}
  {
    var t := SomeSheet(Start(first), [s, first]);
    PlacedExactly(first, [s, first], t);
    assert multiset([s, first]) - multiset{s} == multiset{first};
  }

  /** Being wider and taller than the root is not enough to be lost: the second of
      these tiles is, but the root has grown before its turn. */
  lemma LargeTileCanBePlaced()
    ensures exists t :: Built(Start(TileSpec(0, 1, 1, 0)), [TileSpec(1, 2, 5, 0), TileSpec(2, 2, 4, 0), TileSpec(0, 1, 1, 0)], t)
                        && TileSpec(2, 2, 4, 0) in Tiles(t)
  {
    var tiles := [TileSpec(1, 2, 5, 0), TileSpec(2, 2, 4, 0), TileSpec(0, 1, 1, 0)];
    assert TallestFirst(tiles);
    hide *;
    var t := SomeSheet(Start(TileSpec(0, 1, 1, 0)), tiles);
    PlacedExactly(TileSpec(0, 1, 1, 0), tiles, t);
    assert tiles[1] in multiset(tiles) - multiset{tiles[0]} && multiset(tiles) - multiset{tiles[0]} <= multiset(tiles);
  }

  /** Every list of tiles leads to some sheet. */
  lemma {:induction false} SomeSheet(t: Tree, tiles: seq<TileSpec>) returns (t': Tree)
    ensures Built(t, tiles, t')
    decreases |tiles|
  {
    if tiles == [] {
      t' := t;
    } else {
      var m := Extended(t, tiles[0]);
      if CanPlace(t, tiles[0]) { m := SomePlace(t, tiles[0]); }
      t' := SomeSheet(m, tiles[1..]);
    }
  }

  lemma {:induction false} SomePlace(t: Tree, s: TileSpec) returns (t': Tree)
    requires CanPlace(t, s)
    ensures Placed(t, s, t')
    decreases t
  {
    if Takes(t, s) {
      t' := Fill(t, s);
    } else {
      var i :| 0 <= i < |t.kids| && CanPlace(t.kids[i], s);
      var k := SomePlace(t.kids[i], s);
      t' := t.(kids := t.kids[i := k]);
      PlacedBelow(t, s, i, k);
    }
  }

  // ----- The sheet stays near a square -----

  ghost predicate NearSquare(r: Rect, w0: nat, h0: nat) {
    r.w >= w0 && r.h >= h0 && r.w < r.h + w0 + h0 && r.h <= Max(r.w, h0)
  }

  lemma {:induction false} BuiltStaysNearSquare(t: Tree, tiles: seq<TileSpec>, t': Tree, w0: nat, h0: nat)
    requires NearSquare(t.bounds, w0, h0) && Built(t, tiles, t')
    requires forall s :: s in tiles ==> s.GrossWidth() <= w0 && s.GrossHeight() <= h0
    ensures NearSquare(t'.bounds, w0, h0)
    decreases |tiles|
  {
    if tiles != [] {
      var m :| Added(t, tiles[0], m) && Built(m, tiles[1..], t');
      if CanPlace(t, tiles[0]) { PlacedAddsTile(t, tiles[0], m); }
      BuiltStaysNearSquare(m, tiles[1..], t', w0, h0);
    }
  }

  /** If the first tile is at least as wide and as tall as every other, the sheet
      is at no time much wider than tall, nor taller than wide. */
  lemma {:induction false} SheetStaysNearSquare(first: TileSpec, tiles: seq<TileSpec>, t: Tree)
    requires Built(Start(first), tiles, t) && first.GrossHeight() > 0
    requires forall s :: s in tiles ==> s.GrossWidth() <= first.GrossWidth() && s.GrossHeight() <= first.GrossHeight()
    ensures t.bounds.w < t.bounds.h + first.GrossWidth() + first.GrossHeight()
    ensures t.bounds.h <= Max(t.bounds.w, first.GrossHeight())
  {
    BuiltStaysNearSquare(Start(first), tiles, t, first.GrossWidth(), first.GrossHeight());
  }

  // ----- Two sheets with overlapping tiles -----

  lemma PlacedBelow(t: Tree, s: TileSpec, i: nat, k: Tree)
    requires !Takes(t, s) && i < |t.kids| && Placed(t.kids[i], s, k)
    ensures CanPlace(t, s) && Placed(t, s, t.(kids := t.kids[i := k]))
  {
    PlacedCanPlace(t.kids[i], s, k);
    assert PlacedIn(t, s, t.(kids := t.kids[i := k]), i);
  }

  lemma BuiltNothing(t: Tree)
    ensures Built(t, [], t)
  {
  }

  lemma BuiltMore(t: Tree, s: TileSpec, m: Tree, tiles: seq<TileSpec>, t': Tree)
    requires Added(t, s, m) && Built(m, tiles, t')
    ensures Built(t, [s] + tiles, t')
  {
    assert ([s] + tiles)[1..] == tiles;
  }

  // The tiles of the first sheet, tallest first.
  const T0 := TileSpec(0, 10, 10, 0)
  const T1 := TileSpec(1, 6, 6, 0)
  function Small(id: nat): TileSpec { TileSpec(id, 3, 2, 0) }

  // Its nodes, from the strip at (10, 0) downwards.
  function Spare(role: Role, x: nat, y: nat, w: nat, h: nat): Tree { Leaf(role, Rect(x, y, w, h)) }
  function Full(role: Role, id: nat): Tree {
    Node(role, Rect(13, 8, 3, 2), Some(Small(id)), Rect(13, 8, 3, 2), [])
  }
  function BottomPart(inner: Tree): Tree {
    Node(Bottom, Rect(10, 8, 6, 2), Some(Small(4)), Rect(10, 8, 6, 2), [inner])
  }
  function RightPart(inner: Tree): Tree {
    Node(Right, Rect(13, 6, 3, 4), Some(Small(3)), Rect(13, 6, 3, 4), [inner])
  }
  function Leftover(bottom: Tree, right: Tree): Tree {
    Node(Bottom, Rect(10, 6, 6, 4), Some(Small(2)), Rect(10, 6, 6, 4), [bottom, right])
  }
  function Sheet(leftover: Tree): Tree {
    Node(Root, Rect(0, 0, 16, 10), Some(T0), Rect(0, 0, 10, 10),
         [Node(Strip, Rect(10, 0, 6, 10), Some(T1), Rect(10, 0, 6, 10), [leftover])])
  }

  lemma BelowSheet(l: Tree, s: TileSpec, l': Tree)
    requires Placed(l, s, l')
    ensures Added(Sheet(l), s, Sheet(l'))
  {
    var strip := Sheet(l).kids[0];
    PlacedBelow(strip, s, 0, l');
    assert strip.kids[0 := l'] == [l'];
    PlacedBelow(Sheet(l), s, 0, Sheet(l').kids[0]);
    assert Sheet(l).kids[0 := Sheet(l').kids[0]] == Sheet(l').kids;
  }

  lemma BelowLeftover(b: Tree, r: Tree, s: TileSpec, k: Tree)
    ensures Placed(b, s, k) ==> Placed(Leftover(b, r), s, Leftover(k, r))
    ensures Placed(r, s, k) ==> Placed(Leftover(b, r), s, Leftover(b, k))
  {
    var l := Leftover(b, r);
    if Placed(b, s, k) {
      PlacedBelow(l, s, 0, k);
      assert l.kids[0 := k] == [k, r];
    }
    if Placed(r, s, k) {
      PlacedBelow(l, s, 1, k);
      assert l.kids[1 := k] == [b, k];
    }
  }

  lemma FirstTwo()
    ensures exists m :: Added(Start(T0), T0, m) && Added(m, T1, Sheet(Spare(Bottom, 10, 6, 6, 4)))
  {
    var m := Node(Root, Rect(0, 0, 10, 10), Some(T0), Rect(0, 0, 10, 10), []);
    assert Added(Start(T0), T0, m) by { assert Fill(Start(T0), T0) == m; }
    FirstStrip(m);
    assert !CanPlace(m, T1);
  }

  lemma FirstStrip(m: Tree)
    requires m == Node(Root, Rect(0, 0, 10, 10), Some(T0), Rect(0, 0, 10, 10), [])
    ensures Extended(m, T1) == Sheet(Spare(Bottom, 10, 6, 6, 4))
  {
    var strip := Leaf(Strip, Rect(10, 0, 6, 10));
    assert GrowToFit(m, T1) == m.(bounds := Rect(0, 0, 16, 10), kids := [strip]);
    assert Leftovers(strip.bounds, T1) == [Spare(Bottom, 10, 6, 6, 4)];
    assert Fill(strip, T1) == Sheet(Spare(Bottom, 10, 6, 6, 4)).kids[0];
  }

  lemma LastSparesTake(id: nat)
    ensures Placed(Spare(Right, 13, 8, 3, 2), Small(id), Full(Right, id))
    ensures Placed(Spare(Bottom, 13, 8, 3, 2), Small(id), Full(Bottom, id))
  {
  }

  lemma FirstSpareTakes()
    ensures Placed(Spare(Bottom, 10, 6, 6, 4), Small(2), Leftover(Spare(Bottom, 10, 8, 6, 2), Spare(Right, 13, 6, 3, 4)))
  {
    assert Fill(Spare(Bottom, 10, 6, 6, 4), Small(2)) == Leftover(Spare(Bottom, 10, 8, 6, 2), Spare(Right, 13, 6, 3, 4));
  }

  lemma RightSpareTakes()
    ensures Placed(Spare(Right, 13, 6, 3, 4), Small(3), RightPart(Spare(Bottom, 13, 8, 3, 2)))
  {
    assert Fill(Spare(Right, 13, 6, 3, 4), Small(3)) == RightPart(Spare(Bottom, 13, 8, 3, 2));
  }

  lemma BottomSpareTakes()
    ensures Placed(Spare(Bottom, 10, 8, 6, 2), Small(4), BottomPart(Spare(Right, 13, 8, 3, 2)))
  {
    assert Fill(Spare(Bottom, 10, 8, 6, 2), Small(4)) == BottomPart(Spare(Right, 13, 8, 3, 2));
  }

  /** The stages of the leftover below the first strip. */
  function Stage(n: nat): Tree {
    var b1, b2 := BottomPart(Spare(Right, 13, 8, 3, 2)), BottomPart(Full(Right, 5));
    var r1, r2 := RightPart(Spare(Bottom, 13, 8, 3, 2)), RightPart(Full(Bottom, 6));
    if n == 0 then Spare(Bottom, 10, 6, 6, 4)
    else if n == 1 then Leftover(Spare(Bottom, 10, 8, 6, 2), Spare(Right, 13, 6, 3, 4))
    else if n == 2 then Leftover(Spare(Bottom, 10, 8, 6, 2), r1)
    else if n == 3 then Leftover(b1, r1)
    else if n == 4 then Leftover(b2, r1)
    else Leftover(b2, r2)
  }

  lemma EarlyStages()
    ensures Placed(Stage(0), Small(2), Stage(1)) && Placed(Stage(1), Small(3), Stage(2)) && Placed(Stage(2), Small(4), Stage(3))
  {
    hide Placed, Leftover, Full, BottomPart, RightPart, Small, Spare;
    FirstSpareTakes();
    RightSpareTakes();
    BottomSpareTakes();
    var b0, r0 := Spare(Bottom, 10, 8, 6, 2), Spare(Right, 13, 6, 3, 4);
    var b1, r1 := BottomPart(Spare(Right, 13, 8, 3, 2)), RightPart(Spare(Bottom, 13, 8, 3, 2));
    BelowLeftover(b0, r0, Small(3), r1);
    BelowLeftover(b0, r1, Small(4), b1);
  }

  lemma BottomPartTakes(id: nat)
    ensures Placed(BottomPart(Spare(Right, 13, 8, 3, 2)), Small(id), BottomPart(Full(Right, id)))
  {
    LastSparesTake(id);
    hide Placed, Full;
    var b := BottomPart(Spare(Right, 13, 8, 3, 2));
    PlacedBelow(b, Small(id), 0, Full(Right, id));
    assert b.kids[0 := Full(Right, id)] == [Full(Right, id)];
  }

  lemma RightPartTakes(id: nat)
    ensures Placed(RightPart(Spare(Bottom, 13, 8, 3, 2)), Small(id), RightPart(Full(Bottom, id)))
  {
    LastSparesTake(id);
    hide Placed, Full;
    var r := RightPart(Spare(Bottom, 13, 8, 3, 2));
    PlacedBelow(r, Small(id), 0, Full(Bottom, id));
    assert r.kids[0 := Full(Bottom, id)] == [Full(Bottom, id)];
  }

  lemma LateStages()
    ensures Placed(Stage(3), Small(5), Stage(4)) && Placed(Stage(4), Small(6), Stage(5))
  {
    hide Placed, Leftover, Full, BottomPart, RightPart, Small, Spare;
    BottomPartTakes(5);
    RightPartTakes(6);
    var b1, r1 := BottomPart(Spare(Right, 13, 8, 3, 2)), RightPart(Spare(Bottom, 13, 8, 3, 2));
    BelowLeftover(b1, r1, Small(5), BottomPart(Full(Right, 5)));
    BelowLeftover(BottomPart(Full(Right, 5)), r1, Small(6), RightPart(Full(Bottom, 6)));
  }

  lemma LastFive()
    ensures Built(Sheet(Stage(0)), [Small(2), Small(3), Small(4), Small(5), Small(6)], Sheet(Stage(5)))
  {
    hide Placed, Added, Sheet, Stage, Built;
    EarlyStages();
    LateStages();
    BelowSheet(Stage(0), Small(2), Stage(1));
    BelowSheet(Stage(1), Small(3), Stage(2));
    BelowSheet(Stage(2), Small(4), Stage(3));
    BelowSheet(Stage(3), Small(5), Stage(4));
    BelowSheet(Stage(4), Small(6), Stage(5));
    var end := Sheet(Stage(5));
    BuiltNothing(end);
    BuiltMore(Sheet(Stage(4)), Small(6), end, [], end);
    assert [Small(6)] + [] == [Small(6)];
    BuiltMore(Sheet(Stage(3)), Small(5), Sheet(Stage(4)), [Small(6)], end);
    assert [Small(5)] + [Small(6)] == [Small(5), Small(6)];
    BuiltMore(Sheet(Stage(2)), Small(4), Sheet(Stage(3)), [Small(5), Small(6)], end);
    assert [Small(4)] + [Small(5), Small(6)] == [Small(4), Small(5), Small(6)];
    BuiltMore(Sheet(Stage(1)), Small(3), Sheet(Stage(2)), [Small(4), Small(5), Small(6)], end);
    assert [Small(3)] + [Small(4), Small(5), Small(6)] == [Small(3), Small(4), Small(5), Small(6)];
    BuiltMore(Sheet(Stage(0)), Small(2), Sheet(Stage(1)), [Small(3), Small(4), Small(5), Small(6)], end);
    assert [Small(2)] + [Small(3), Small(4), Small(5), Small(6)] == [Small(2), Small(3), Small(4), Small(5), Small(6)];
  }

  lemma OverlapInLastStage()
    ensures var p, q, t := [0, 0, 0, 0], [0, 0, 1, 0], Sheet(Stage(5));
            && IsPath(t, p) && IsPath(t, q) && At(t, p) == Full(Right, 5) && At(t, q) == Full(Bottom, 6)
  {
    var t := Sheet(Stage(5));
    var l := Stage(5);
    assert [0, 0, 0, 0][1..] == [0, 0, 0] && [0, 0, 0][1..] == [0, 0] && [0, 0][1..] == [0];
    assert [0, 0, 1, 0][1..] == [0, 1, 0] && [0, 1, 0][1..] == [1, 0] && [1, 0][1..] == [0] && [0][1..] == [];
    assert IsPath(l.kids[0], [0]) && At(l.kids[0], [0]) == Full(Right, 5);
    assert IsPath(l.kids[1], [0]) && At(l.kids[1], [0]) == Full(Bottom, 6);
    assert IsPath(l, [0, 0]) && IsPath(l, [1, 0]);
    assert IsPath(t.kids[0], [0, 0, 0]) && IsPath(t.kids[0], [0, 1, 0]);
  }

  lemma FirstStage()
    ensures Stage(0) == Spare(Bottom, 10, 6, 6, 4)
  {
  }

  lemma AllSeven()
    ensures Built(Start(T0), [T0, T1, Small(2), Small(3), Small(4), Small(5), Small(6)], Sheet(Stage(5)))
  {
    hide *;
    FirstTwo();
    FirstStage();
    LastFive();
    var m :| Added(Start(T0), T0, m) && Added(m, T1, Sheet(Spare(Bottom, 10, 6, 6, 4)));
    var end, five := Sheet(Stage(5)), [Small(2), Small(3), Small(4), Small(5), Small(6)];
    BuiltMore(m, T1, Sheet(Stage(0)), five, end);
    BuiltMore(Start(T0), T0, m, [T1] + five, end);
    assert [T0] + ([T1] + five) == [T0, T1, Small(2), Small(3), Small(4), Small(5), Small(6)];
  }

  ghost predicate Overlapping(t: Tree, p: seq<nat>, q: seq<nat>) {
    && IsPath(t, p) && IsPath(t, q) && p != q
    && At(t, p).tile.Some? && At(t, q).tile.Some? && ShareArea(Gross(At(t, p)), Gross(At(t, q)))
  }

  lemma LastStageOverlaps()
    ensures Overlapping(Sheet(Stage(5)), [0, 0, 0, 0], [0, 0, 1, 0])
  {
    OverlapInLastStage();
    assert [0, 0, 0, 0][2] != [0, 0, 1, 0][2];
    hide Sheet, Stage, At, IsPath;
    assert ShareArea(Gross(Full(Right, 5)), Gross(Full(Bottom, 6)));
  }

  /** Disjointness does not hold in general: seven tiles, tallest first, the first
      of which fills the initial root, two of which end up in the same place. */
  lemma TilesCanOverlap()
    ensures exists t, p, q ::
      Built(Start(T0), [T0, T1, Small(2), Small(3), Small(4), Small(5), Small(6)], t) && Overlapping(t, p, q)
  {
    hide *;
    AllSeven();
    LastStageOverlaps();
  }

  // The tiles and the trees of the second sheet.
  const S0 := TileSpec(0, 1, 1, 0)
  const S1 := TileSpec(1, 1, 2, 0)
  const S2 := TileSpec(2, 1, 1, 0)
  const LOW := Rect(0, 1, 1, 2)
  function Tall(): Tree { Node(Strip, LOW, Some(S1), LOW, []) }
  function Late(): Tree { Node(Bottom, LOW, Some(S2), LOW, [Leaf(Bottom, Rect(0, 2, 1, 1))]) }
  function Grown(): Tree { Node(Root, Rect(0, 0, 1, 3), None, Rect(0, 0, 1, 1), [Tall()]) }
  function Filled(k: Tree): Tree { Node(Root, Rect(0, 0, 1, 3), Some(S0), Rect(0, 0, 1, 3), [Tall(), k]) }

  lemma TallStrip()
    ensures Added(Start(S0), S1, Grown())
  {
    assert GrowToFit(Start(S0), S1) == Grown().(kids := [Leaf(Strip, LOW)]);
    assert Fill(Leaf(Strip, LOW), S1) == Tall();
  }

  lemma RootFillsLate()
    ensures Added(Grown(), S0, Filled(Leaf(Bottom, LOW)))
  {
    assert Fill(Grown(), S0) == Filled(Leaf(Bottom, LOW));
  }

  lemma LastOnTop()
    ensures Added(Filled(Leaf(Bottom, LOW)), S2, Filled(Late()))
  {
    assert Fill(Leaf(Bottom, LOW), S2) == Late();
    assert Placed(Leaf(Bottom, LOW), S2, Late());
    PlacedBelow(Filled(Leaf(Bottom, LOW)), S2, 1, Late());
    assert Filled(Leaf(Bottom, LOW)).kids[1 := Late()] == [Tall(), Late()];
  }

  lemma LateOverlaps()
    ensures Overlapping(Filled(Late()), [0], [1]) && forall n :: !MeetInCorner(Filled(Late()), [0], [1], n)
  {
    var t := Filled(Late());
    assert [0][0] != [1][0] && IsPath(t, [0]) && IsPath(t, [1]) && At(t, [0]) == Tall() && At(t, [1]) == Late();
    StripMeetsNobody(t, 0, 1);
  }

  lemma StripMeetsNobody(t: Tree, i: nat, j: nat)
    requires IsPath(t, [i]) && IsPath(t, [j]) && At(t, [i]).tile.Some? && At(t, [j]).tile.Some?
    requires t.kids[i].role.Strip?
    ensures forall n :: !MeetInCorner(t, [i], [j], n)
  {
    hide Gross, ShareOnlyIn, Fits;
    assert [i][..0] == [];
  }

  /** The premise of the localisation is needed: here the initial root is too low
      for the first tile and takes a later one, on top of the strip. */
  lemma FirstTileMatters()
    ensures exists t, p, q :: Built(Start(S0), [S1, S0, S2], t) && Overlapping(t, p, q)
                              && forall n :: !MeetInCorner(t, p, q, n)
  {
    hide *;
    BuiltFromThree();
    LateOverlaps();
  }

  lemma BuiltFromThree()
    ensures Built(Start(S0), [S1, S0, S2], Filled(Late()))
  {
    hide *;
    var t := Filled(Late());
    BuiltNothing(t);
    TallStrip();
    RootFillsLate();
    LastOnTop();
    BuiltMore(Filled(Leaf(Bottom, LOW)), S2, t, [], t);
    BuiltMore(Grown(), S0, Filled(Leaf(Bottom, LOW)), [S2] + [], t);
    BuiltMore(Start(S0), S1, Grown(), [S0] + ([S2] + []), t);
    assert [S1] + ([S0] + ([S2] + [])) == [S1, S0, S2];
  }
}
