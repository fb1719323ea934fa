/** The packer's mutable nodes and tiles (src/model/Sprite.cpp), proved to follow
    the relations on trees for every order in which the subnodes are visited. */
module SpritePacker {
  import opened Basics
  import opened SpriteTree
  import opened SpriteGrowth

  class Tile {
    const spec: TileSpec
    var x: nat
    var y: nat
    ghost var placements: nat  // how often the origin was set

    constructor (spec: TileSpec)
      ensures this.spec == spec && placements == 0
    {
      this.spec, x, y, placements := spec, 0, 0, 0;
    }

    predicate SitsIn(area: Rect)
      reads this
    {
      x == area.x + spec.padding && y == area.y + spec.padding
    }

    method SetOrigin(x: nat, y: nat)
      modifies this
      ensures this.x == x && this.y == y && placements == old(placements) + 1
    {
      this.x, this.y, placements := x, y, placements + 1;
    }
  }

  class SpriteNode {
    var bounds: Rect
    var tile: Tile?
    var subnodes: set<SpriteNode>
    ghost var kids: seq<SpriteNode>  // the subnodes, in the order of the tree
    ghost var tree: Tree             // what the node and everything below it amounts to
    ghost var Repr: set<SpriteNode>

    ghost predicate Local()
      reads this
    {
      && this in Repr
      && tree.bounds == bounds
      && (tile == null <==> tree.tile.None?) && (tile != null ==> tree.tile == Some(tile.spec))
      && |kids| == |tree.kids|
      && (forall n | n in subnodes :: n in kids)
      && (forall i :: 0 <= i < |kids| ==> kids[i] in subnodes)
    }

    ghost predicate Valid()
      reads this, Repr
      decreases Repr
    {
      && Local()
      && (forall i :: 0 <= i < |kids| ==>
            kids[i] in Repr && kids[i].Repr <= Repr && this !in kids[i].Repr
            && kids[i].tree == tree.kids[i] && kids[i].Valid())
      && (forall i, j :: 0 <= i < j < |kids| ==> kids[i].Repr !! kids[j].Repr)
    }

    constructor (role: Role, bounds: Rect)
      ensures Valid() && tree == Leaf(role, bounds) && Repr == {this} && fresh(this)
    {
      this.bounds, tile, subnodes := bounds, null, {};
      kids, tree, Repr := [], Leaf(role, bounds), {this};
    }

    /** Adding a fresh leaf below this node. */
    method Insert(role: Role, area: Rect) returns (node: SpriteNode)
      requires Valid()
      modifies this
      ensures Valid() && fresh(node) && node in Repr && node.tree == Leaf(role, area) && node.Repr == {node}
      ensures Repr == old(Repr) + {node} && kids == old(kids) + [node]
      ensures bounds == old(bounds) && tile == old(tile)
      ensures tree == old(tree).(kids := old(tree).kids + [Leaf(role, area)])
    {
      node := new SpriteNode(role, area);
      Adopt(node);
    }

    method Adopt(node: SpriteNode)
      requires Valid() && node.Valid() && node.Repr !! Repr
      modifies this`subnodes, this`kids, this`tree, this`Repr
      ensures Valid() && Repr == old(Repr) + node.Repr && kids == old(kids) + [node]
      ensures tree == old(tree).(kids := old(tree).kids + [node.tree])
    {
      subnodes := subnodes + {node};
      kids := kids + [node];
      tree := tree.(kids := tree.kids + [node.tree]);
      Repr := Repr + node.Repr;
    }

    /** Taking the tile into this very node. */
    method Take(imageTile: Tile)
      requires Valid() && Takes(tree, imageTile.spec)
      modifies this, imageTile
      ensures Valid() && tree == Fill(old(tree), imageTile.spec) && bounds == old(bounds)
      ensures fresh(Repr - old(Repr)) && old(Repr) <= Repr
      ensures imageTile.placements == old(imageTile.placements) + 1 && imageTile.SitsIn(bounds)
    {
      hide Valid;
      var grossWidth, grossHeight := imageTile.spec.GrossWidth(), imageTile.spec.GrossHeight();
      ghost var t := tree;
      SetTile(imageTile);
      imageTile.SetOrigin(bounds.x + imageTile.spec.padding, bounds.y + imageTile.spec.padding);
      var bottomHeight := bounds.h - grossHeight;
      if bottomHeight > 0 {
        var _ := Insert(Bottom, Rect(bounds.x, bounds.y + grossHeight, bounds.w, bottomHeight));
      }
      var rightWidth := bounds.w - grossWidth;
      if rightWidth > 0 {
        var _ := Insert(Right, Rect(bounds.x + grossWidth, bounds.y, rightWidth, bounds.h));
      }
      assert tree.kids == t.kids + Leftovers(t.bounds, imageTile.spec);
    }

    /** Growing keeps what is in the tree and appends the strip. */
    method GrowRight(extraWidth: nat) returns (right: SpriteNode)
      requires Valid()
      modifies this
      ensures Valid() && fresh(Repr - old(Repr)) && old(Repr) <= Repr
      ensures tree == SpriteTree.GrowRight(old(tree), extraWidth) && kids == old(kids) + [right]
    {
      right := Insert(Strip, Rect(bounds.x + bounds.w, bounds.y, extraWidth, bounds.h));
      SetBounds(bounds.(w := bounds.w + extraWidth));
    }

    method GrowDown(extraHeight: nat) returns (bottom: SpriteNode)
      requires Valid()
      modifies this
      ensures Valid() && fresh(Repr - old(Repr)) && old(Repr) <= Repr
      ensures tree == SpriteTree.GrowDown(old(tree), extraHeight) && kids == old(kids) + [bottom]
    {
      bottom := Insert(Strip, Rect(bounds.x, bounds.y + bounds.h, bounds.w, extraHeight));
      SetBounds(bounds.(h := bounds.h + extraHeight));
    }

    method SetBounds(area: Rect)
      requires Valid()
      modifies this`bounds, this`tree
      ensures Valid() && tree == old(tree).(bounds := area)
    {
      bounds := area;
      tree := tree.(bounds := area);
    }

    method GrowToFit(imageTile: Tile) returns (extension: SpriteNode)
      requires Valid()
      modifies this
      ensures Valid() && fresh(Repr - old(Repr)) && old(Repr) <= Repr
      ensures tree == SpriteTree.GrowToFit(old(tree), imageTile.spec) && kids == old(kids) + [extension]
    {
      var w, h := imageTile.spec.GrossWidth(), imageTile.spec.GrossHeight();
      var canGrowDown := w <= bounds.w;
      var canGrowRight := h <= bounds.h;
      var shouldGrowRight := canGrowRight && bounds.h >= bounds.w + w;
      var shouldGrowDown := canGrowDown && bounds.w >= bounds.h + h;
      if shouldGrowRight {
        extension := GrowRight(w);
      } else if shouldGrowDown {
        extension := GrowDown(h);
      } else if canGrowRight {
        extension := GrowRight(w);
      } else {
        extension := GrowDown(h);
      }
    }

    /** What `build` does with a tile that no node can take. */
    method Extend(imageTile: Tile) returns (placed: bool, ghost path: seq<nat>)
      requires Valid()
      modifies Repr, imageTile
      ensures Valid() && fresh(Repr - old(Repr)) && old(Repr) <= Repr
      ensures tree == Extended(old(tree), imageTile.spec)
      ensures placed <==> FitsOneWay(imageTile.spec, old(tree).bounds)
      ensures imageTile.placements == old(imageTile.placements) + (if placed then 1 else 0)
      ensures !placed ==> unchanged(imageTile)
      ensures placed ==> Holds(tree, path, imageTile) && !Occupied(old(tree), path)
    {
      hide *;
      path := [];
      Self();
      var extension := GrowToFit(imageTile);
      ghost var i, grown := |kids| - 1, tree;
      Self();
      GrowthAddsStrip(old(tree), imageTile.spec);
      StripHoldsTile(old(tree), imageTile.spec);
      Subnode(i);
      label Grown:
      ghost var p;
      placed, p := extension.Place(imageTile);
      PlacedInLeaf(grown.kids[i], imageTile.spec, extension.tree);
      OthersKept@Grown(i);
      Follow(i);
      if placed {
        path := [i] + p;
        HoldsAbove(tree, i, p, imageTile);
        NotThere(old(tree), i, p);
      }
      ExtendedBy(old(tree), imageTile.spec, grown, i, extension.tree);
    }

    /** One turn of the loop in `build`. */
    method Add(imageTile: Tile) returns (placed: bool, ghost path: seq<nat>)
      requires Valid()
      modifies Repr, imageTile
      ensures Valid() && fresh(Repr - old(Repr)) && old(Repr) <= Repr
      ensures Added(old(tree), imageTile.spec, tree)
      ensures placed <==> CanPlace(old(tree), imageTile.spec) || FitsOneWay(imageTile.spec, old(tree).bounds)
      ensures placed ==> imageTile.placements == old(imageTile.placements) + 1
      ensures placed ==> Holds(tree, path, imageTile) && Occupied(tree, path) && !Occupied(old(tree), path)
      ensures !placed ==> unchanged(imageTile)
    {
      hide Valid, Placed, CanPlace, Extended, FitsOneWay;
      placed, path := Place(imageTile);
      if !placed {
        placed, path := Extend(imageTile);
      }
    }

    lemma Self()
      requires Valid()
      ensures this in Repr && tree.bounds == bounds && |kids| == |tree.kids|
    {
    }

    lemma Subnode(i: nat)
      requires Valid() && i < |kids|
      ensures |kids| == |tree.kids| && kids[i].Valid() && kids[i].Repr <= Repr && kids[i].tree == tree.kids[i]
      ensures this !in kids[i].Repr
    {
    }

    method SetTile(imageTile: Tile)
      requires Valid()
      modifies this`tile, this`tree
      ensures Valid() && Repr == old(Repr) && tree.bounds == bounds && tree == old(tree).(tile := Some(imageTile.spec), split := old(tree).bounds)
    {
      tile := imageTile;
      tree := tree.(tile := Some(imageTile.spec), split := tree.bounds);
    }

    /** What a node knows about one of its subnodes. */
    lemma SubnodeAt(adj: SpriteNode) returns (i: nat)
      requires Valid() && adj in subnodes
      ensures i < |kids| && i < |tree.kids| && kids[i] == adj
      ensures adj.Valid() && adj.tree == tree.kids[i] && adj.Repr < Repr && this !in adj.Repr && this in Repr
    {
      i :| 0 <= i < |kids| && kids[i] == adj;
    }

    /** All but the place of subnode i in the tree is as `Valid` says. */
    ghost predicate ValidBut(i: nat)
      reads this, Repr, set n | n in kids, set n, m | n in kids && m in n.Repr :: m
    {
      && i < |kids| && Local() && kids[i].Valid() && this !in kids[i].Repr
      && (forall j :: 0 <= j < |kids| && j != i ==>
            kids[j] in Repr && this !in kids[j].Repr && kids[j].Valid() && kids[j].Repr <= Repr && kids[j].tree == tree.kids[j])
      && (forall j, k :: 0 <= j < k < |kids| ==> kids[j].Repr !! kids[k].Repr)
    }

    /** The other subnodes do not notice that subnode i has changed. */
    twostate lemma OthersKept(i: nat)
      requires old(Valid()) && i < |kids| && unchanged(this)
      requires forall n | n in old(Repr) :: n !in old(kids[i].Repr) ==> unchanged(n)
      requires kids[i].Valid() && fresh(kids[i].Repr - old(kids[i].Repr))
      ensures ValidBut(i)
    {
      forall j | 0 <= j < |kids| && j != i ensures kids[j].Valid() && kids[j].Repr == old(kids[j].Repr) && kids[j].tree == old(kids[j].tree) {
        assert old(kids[j].Repr) !! old(kids[i].Repr) by { if j < i {} else {} }
        assert kids[j] in old(Repr) && old(kids[j].Valid());
        assert old(kids[j].Local());
      }
    }

    /** After subnode i alone has changed, this node follows. */
    ghost method Follow(i: nat)
      requires ValidBut(i)
      modifies this`tree, this`Repr
      ensures Valid() && Repr == old(Repr) + kids[i].Repr
      ensures tree == old(tree).(kids := old(tree).kids[i := kids[i].tree])
    {
      tree := tree.(kids := tree.kids[i := kids[i].tree]);
      Repr := Repr + kids[i].Repr;
    }

    /** Places the tile in this node or below it, visiting the subnodes in an order
        that is not fixed; `path` leads to the node that took it. */
    method Place(imageTile: Tile) returns (placed: bool, ghost path: seq<nat>)
      requires Valid()
      modifies Repr, imageTile
      decreases Repr, 1
      ensures placed <==> CanPlace(old(tree), imageTile.spec)
      ensures !placed ==> Repr == old(Repr) && unchanged(old(Repr)) && unchanged(imageTile)
      ensures Valid() && fresh(Repr - old(Repr)) && old(Repr) <= Repr
      ensures placed ==> Placed(old(tree), imageTile.spec, tree)
      ensures placed ==> imageTile.placements == old(imageTile.placements) + 1 && Holds(tree, path, imageTile)
      ensures placed ==> !Occupied(old(tree), path)
    {
      path := [];
      if tile == null && bounds.w >= imageTile.spec.GrossWidth() && bounds.h >= imageTile.spec.GrossHeight() {
        Take(imageTile);
        return true, [];
      }
      placed, path := PlaceBelow(imageTile);
    }

    method PlaceBelow(imageTile: Tile) returns (placed: bool, ghost path: seq<nat>)
      requires Valid() && !Takes(tree, imageTile.spec)
      modifies Repr, imageTile
      decreases Repr, 0
      ensures placed <==> CanPlace(old(tree), imageTile.spec)
      ensures !placed ==> Repr == old(Repr) && unchanged(old(Repr)) && unchanged(imageTile)
      ensures Valid() && fresh(Repr - old(Repr)) && old(Repr) <= Repr
      ensures placed ==> Placed(old(tree), imageTile.spec, tree)
      ensures placed ==> imageTile.placements == old(imageTile.placements) + 1 && Holds(tree, path, imageTile)
      ensures placed ==> !Occupied(old(tree), path)
    {
      hide *;
      var pending := subnodes;
      NoneYet(imageTile.spec);
      while pending != {}
        invariant Repr == old(Repr) && unchanged(old(Repr)) && unchanged(imageTile) && Valid()
        invariant pending <= subnodes
        invariant NoneTakes(kids, tree.kids, pending, imageTile.spec)
        decreases |pending|
      {
        var adj :| adj in pending;
        ghost var i := SubnodeAt(adj);
        ghost var p;
        placed, p := adj.Place(imageTile);
        if placed {
          OthersKept(i);
          Follow(i);
          PlacedBelow(old(tree), imageTile.spec, i, adj.tree);
          assert Holds(tree, [i] + p, imageTile) by { HoldsAbove(tree, i, p, imageTile); }
          FreeAbove(old(tree), i, p);
          path := [i] + p;
          return true, path;
        }
        NoneMore(pending, imageTile.spec, i);
        pending := pending - {adj};
      }
      NoneAtAll(kids, tree, imageTile.spec);
      return false, [];
    }

    lemma NoneMore(pending: set<SpriteNode>, s: TileSpec, i: nat)
      requires Valid() && NoneTakes(kids, tree.kids, pending, s) && i < |kids| && !CanPlace(tree.kids[i], s)
      ensures NoneTakes(kids, tree.kids, pending - {kids[i]}, s)
    {
      forall j | 0 <= j < |kids| && j != i ensures kids[j] != kids[i] {
        assert kids[i].Local() && kids[j].Local();
      }
    }

    lemma NoneYet(s: TileSpec)
      requires Valid()
      ensures NoneTakes(kids, tree.kids, subnodes, s)
    {
    }
  }

  ghost predicate NoneTakes(nodes: seq<SpriteNode>, trees: seq<Tree>, pending: set<SpriteNode>, s: TileSpec) {
    |nodes| == |trees| && forall i :: 0 <= i < |nodes| && nodes[i] !in pending ==> !CanPlace(trees[i], s)
  }

  lemma NoneAtAll(nodes: seq<SpriteNode>, t: Tree, s: TileSpec)
    requires NoneTakes(nodes, t.kids, {}, s) && !Takes(t, s)
    ensures !CanPlace(t, s)
  {
  }

  // ----- Where tiles sit -----

  ghost predicate Occupied(t: Tree, path: seq<nat>) {
    IsPath(t, path) && At(t, path).tile.Some?
  }

  /** The tile is the one at that place of the tree, inset by its padding. */
  ghost predicate Holds(t: Tree, path: seq<nat>, tile: Tile)
    reads tile
  {
    && IsPath(t, path) && At(t, path).tile == Some(tile.spec)
    && tile.SitsIn(At(t, path).bounds)
  }

  ghost predicate SameSeat(k: Tree, k': Tree) {
    k'.tile == k.tile && k'.bounds.x == k.bounds.x && k'.bounds.y == k.bounds.y
  }

  /** What has been placed stays where it is. */
  ghost predicate Stays(t: Tree, t': Tree, path: seq<nat>) {
    Occupied(t, path) ==> IsPath(t', path) && SameSeat(At(t, path), At(t', path))
  }

  lemma {:induction false} PlacedStays(t: Tree, s: TileSpec, t': Tree, path: seq<nat>)
    requires Placed(t, s, t')
    ensures Stays(t, t', path)
    decreases t
  {
    if Takes(t, s) {
    } else if Occupied(t, path) && path != [] {
      var i :| 0 <= i < |t.kids| && PlacedIn(t, s, t', i);
      if path[0] == i {
        PlacedStays(t.kids[i], s, t'.kids[i], path[1..]);
      }
    }
  }

  lemma ExtendedStays(t: Tree, s: TileSpec, path: seq<nat>)
    ensures Stays(t, Extended(t, s), path)
  {
    GrowthAddsStrip(t, s);
  }

  lemma {:induction false} BuiltThen(t: Tree, tiles: seq<TileSpec>, m: Tree, s: TileSpec, t': Tree)
    requires Built(t, tiles, m) && Added(m, s, t')
    ensures Built(t, tiles + [s], t')
    decreases |tiles|
  {
    if tiles == [] {
      BuiltNothing(t');
      BuiltMore(t, s, t', [], t');
      assert tiles + [s] == [s] + [];
    } else {
      var l :| Added(t, tiles[0], l) && Built(l, tiles[1..], m);
      BuiltThen(l, tiles[1..], m, s, t');
      BuiltMore(t, tiles[0], l, tiles[1..] + [s], t');
      assert tiles + [s] == [tiles[0]] + (tiles[1..] + [s]);
    }
  }

  lemma HoldsAbove(t: Tree, i: nat, path: seq<nat>, tile: Tile)
    requires i < |t.kids| && Holds(t.kids[i], path, tile)
    ensures Holds(t, [i] + path, tile)
  {
    assert ([i] + path)[1..] == path;
  }

  lemma FreeAbove(t: Tree, i: nat, path: seq<nat>)
    requires i < |t.kids| && !Occupied(t.kids[i], path)
    ensures !Occupied(t, [i] + path)
  {
    assert ([i] + path)[1..] == path;
  }

  lemma NotThere(t: Tree, i: nat, path: seq<nat>)
    requires i >= |t.kids|
    ensures !Occupied(t, [i] + path)
  {
  }

  lemma PlacedInLeaf(t: Tree, s: TileSpec, t': Tree)
    requires t == Leaf(Strip, t.bounds)
    ensures CanPlace(t, s) <==> Takes(t, s)
    ensures Placed(t, s, t') ==> Takes(t, s) && t' == Fill(t, s)
  {
  }

  lemma ExtendedBy(t: Tree, s: TileSpec, g: Tree, i: nat, k: Tree)
    requires g == SpriteTree.GrowToFit(t, s) && i == |t.kids| && i + 1 == |g.kids|
    requires if Takes(g.kids[i], s) then k == Fill(g.kids[i], s) else k == g.kids[i]
    ensures Extended(t, s) == g.(kids := g.kids[i := k])
  {
    hide Fill, Takes, SpriteTree.GrowToFit;
    assert g.kids[i := g.kids[i]] == g.kids;
  }

  /** Read off the tile's own fields: on all four sides the area the tree records for
      it goes beyond the tile by exactly the padding, and it lies inside the sheet. */
  lemma {:induction false} TileCoversItsPlace(first: TileSpec, specs: seq<TileSpec>, t: Tree, path: seq<nat>, tile: Tile)
    requires Built(Start(first), specs, t) && Holds(t, path, tile)
    ensures tile.x >= tile.spec.padding && tile.y >= tile.spec.padding
    ensures var g := Gross(At(t, path));
            && g.x == tile.x - tile.spec.padding && g.x + g.w == tile.x + tile.spec.width + tile.spec.padding
            && g.y == tile.y - tile.spec.padding && g.y + g.h == tile.y + tile.spec.height + tile.spec.padding
    ensures t.bounds.x <= tile.x - tile.spec.padding
    ensures t.bounds.y <= tile.y - tile.spec.padding
    ensures tile.x + tile.spec.width + tile.spec.padding <= t.bounds.x + t.bounds.w
    ensures tile.y + tile.spec.height + tile.spec.padding <= t.bounds.y + t.bounds.h
  {
    TilesInsideSheet(first, specs, t, path);
  }

  lemma {:induction false} AddedStays(t: Tree, s: TileSpec, t': Tree, path: seq<nat>)
    requires Added(t, s, t')
    ensures Stays(t, t', path)
  {
    if CanPlace(t, s) { PlacedStays(t, s, t', path); } else { ExtendedStays(t, s, path); }
  }

  lemma {:induction false} StillHold(t: Tree, s: TileSpec, t': Tree)
    requires Added(t, s, t')
    ensures forall path, tile :: Holds(t, path, tile) ==> Holds(t', path, tile)
  {
    forall path, tile | Holds(t, path, tile) ensures Holds(t', path, tile) {
      AddedStays(t, s, t', path);
    }
  }

  lemma SpecsMore(tiles: seq<Tile>, k: nat)
    requires k < |tiles|
    ensures Specs(tiles[..k + 1]) == Specs(tiles[..k]) + [tiles[k].spec]
  {
  }

  function Specs(tiles: seq<Tile>): (specs: seq<TileSpec>)
    ensures |specs| == |tiles| && forall i :: 0 <= i < |tiles| ==> specs[i] == tiles[i].spec
  {
    seq(|tiles|, i requires 0 <= i < |tiles| => tiles[i].spec)
  }

  // ----- Building the sheet -----

  /** No place is given twice. */
  ghost predicate Distinct(paths: seq<Option<seq<nat>>>) {
    forall i, j :: 0 <= i < j < |paths| && paths[i].Some? ==> paths[i] != paths[j]
  }

  /** Every tile that is no wider or no taller than the area has got a place, and so
      has every later tile that is no taller than the first one; the first one has
      if and only if it is no wider or no taller than the area. */
  ghost predicate Complete(specs: seq<TileSpec>, area: Rect, paths: seq<Option<seq<nat>>>) {
    && |paths| == |specs|
    && (forall i :: 0 <= i < |specs| && FitsOneWay(specs[i], area) ==> paths[i].Some?)
    && (specs != [] && paths[0].Some? ==> FitsOneWay(specs[0], area))
    && (forall i :: 0 < i < |specs| && specs[i].GrossHeight() <= specs[0].GrossHeight() ==> paths[i].Some?)
  }

  ghost predicate AllOccupied(t: Tree, paths: seq<Option<seq<nat>>>) {
    forall i :: 0 <= i < |paths| && paths[i].Some? ==> Occupied(t, paths[i].value)
  }

  /** How far the sheet has come, apart from the tiles' own origins. */
  ghost predicate Progress(first: Tree, specs: seq<TileSpec>, paths: seq<Option<seq<nat>>>, t: Tree) {
    && first == Leaf(Root, first.bounds)
    && (specs != [] ==> specs[0].GrossHeight() <= t.bounds.h)
    && Built(first, specs, t) && first.bounds.w <= t.bounds.w && first.bounds.h <= t.bounds.h
    && Distinct(paths) && Complete(specs, first.bounds, paths) && AllOccupied(t, paths)
  }

  lemma {:induction false} MoreProgress(first: Tree, specs: seq<TileSpec>, paths: seq<Option<seq<nat>>>, t: Tree,
                     s: TileSpec, path: Option<seq<nat>>, t': Tree)
    requires Progress(first, specs, paths, t) && Added(t, s, t')
    requires path.Some? ==> !Occupied(t, path.value) && Occupied(t', path.value)
    requires path.Some? <==> CanPlace(t, s) || FitsOneWay(s, t.bounds)
    ensures Progress(first, specs + [s], paths + [path], t')
  {
    hide FitsOneWay, Added, Occupied, Built, CanPlace, Distinct, Complete;
    AddedAddsTile(t, s, t');
    BuiltThen(first, specs, t, s, t');
    if FitsOneWay(s, first.bounds) { StillFits(s, first.bounds, t.bounds); }
    if specs == [] { BeforeFirst(first, s, t, t'); } else { LowFits(s, t.bounds); }
    CompleteMore(specs, first.bounds, paths, s, path);
    forall i | 0 <= i < |paths| && paths[i].Some? ensures Occupied(t', paths[i].value) && paths[i] != path {
      StaysOccupied(t, s, t', paths[i].value);
    }
    DistinctMore(paths, path);
  }

  lemma StillFits(s: TileSpec, r: Rect, r': Rect)
    requires FitsOneWay(s, r) && r.w <= r'.w && r.h <= r'.h
    ensures FitsOneWay(s, r')
  {
  }

  lemma LowFits(s: TileSpec, r: Rect)
    ensures s.GrossHeight() <= r.h ==> FitsOneWay(s, r)
  {
  }

  lemma BeforeFirst(first: Tree, s: TileSpec, t: Tree, t': Tree)
    requires first == Leaf(Root, first.bounds) && Built(first, [], t) && Added(t, s, t')
    ensures t == first && s.GrossHeight() <= t'.bounds.h && (CanPlace(t, s) ==> FitsOneWay(s, first.bounds))
  {
    FirstTileTells(first.bounds, Root, s, t');
  }

  lemma CompleteMore(specs: seq<TileSpec>, area: Rect, paths: seq<Option<seq<nat>>>, s: TileSpec, path: Option<seq<nat>>)
    requires Complete(specs, area, paths) && (FitsOneWay(s, area) ==> path.Some?)
    requires if specs == [] then path.Some? ==> FitsOneWay(s, area)
             else s.GrossHeight() <= specs[0].GrossHeight() ==> path.Some?
    ensures Complete(specs + [s], area, paths + [path])
  {
    hide FitsOneWay;
  }

  lemma DistinctMore(paths: seq<Option<seq<nat>>>, path: Option<seq<nat>>)
    requires Distinct(paths) && forall i :: 0 <= i < |paths| && paths[i].Some? ==> paths[i] != path
    ensures Distinct(paths + [path])
  {
  }

  lemma {:induction false} StaysOccupied(t: Tree, s: TileSpec, t': Tree, path: seq<nat>)
    requires Added(t, s, t') && Occupied(t, path)
    ensures Occupied(t', path)
  {
    AddedStays(t, s, t', path);
  }

  /** A tile that got a place had its origin set once and sits there; one that did
      not is as it was. */
  twostate predicate Settled(tile: Tile, new path: Option<seq<nat>>, t: Tree)
    reads tile
  {
    if path.Some? then tile.placements == old(tile.placements) + 1 && Holds(t, path.value, tile)
    else unchanged(tile)
  }

  class Sprite {
    var tiles: seq<Tile>
    var bounds: Rect

    /** `sorted` holds the tiles in the order the sort leaves; nothing here depends
        on which one it is. */
    method Build(sorted: seq<Tile>) returns (ghost t: Tree, ghost paths: seq<Option<seq<nat>>>)
      requires multiset(sorted) == multiset(tiles)
      requires forall i, j :: 0 <= i < j < |sorted| ==> sorted[i] != sorted[j]
      modifies this`bounds, tiles
      ensures tiles == [] ==> bounds == old(bounds)
      ensures tiles != [] ==> Built(Start(tiles[0].spec), Specs(sorted), t) && bounds == t.bounds
      ensures |paths| == |sorted| && forall i :: 0 <= i < |sorted| ==> Settled(sorted[i], paths[i], t)
      ensures Distinct(paths) && (tiles != [] ==> Complete(Specs(sorted), Start(tiles[0].spec).bounds, paths))
    {
      hide Built, Holds, Distinct, Complete, AllOccupied, Specs;
      paths := [];
      if tiles == [] {
        NoProgress(Leaf(Root, bounds));
        assert |multiset(tiles)| == 0;
        t := Leaf(Root, bounds);
        return;
      }
      var root := new SpriteNode(Root, Rect(0, 0, tiles[0].spec.GrossWidth(), tiles[0].spec.GrossHeight()));
      assert forall i :: 0 <= i < |sorted| ==> sorted[i] in multiset(tiles);
      t, paths := PlaceAll(root, sorted);
      bounds := root.bounds;
    }
  }

  lemma NoProgress(t: Tree)
    requires t == Leaf(Root, t.bounds)
    ensures Progress(t, [], [], t) && Distinct([])
  {
  }

  /** The loop of `build`. */
  method PlaceAll(root: SpriteNode, sorted: seq<Tile>) returns (ghost t: Tree, ghost paths: seq<Option<seq<nat>>>)
    requires root.Valid() && root.tree == Leaf(Root, root.tree.bounds)
    requires forall i, j :: 0 <= i < j < |sorted| ==> sorted[i] != sorted[j]
    modifies root.Repr, sorted
    ensures Progress(old(root.tree), Specs(sorted), paths, t) && root.bounds == t.bounds
    ensures |paths| == |sorted| && forall i :: 0 <= i < |sorted| ==> Settled(sorted[i], paths[i], t)
  {
    hide SpriteNode.Valid, Progress, Added, Holds, Occupied, CanPlace, FitsOneWay, Specs;
    ghost var first := root.tree;
    paths, t := [], root.tree;
    NoProgress(t);
    assert Specs(sorted[..0]) == [];
    for k := 0 to |sorted|
      invariant root.Valid() && fresh(root.Repr - old(root.Repr)) && t == root.tree
      invariant Progress(first, Specs(sorted[..k]), paths, t)
      invariant |paths| == k && forall i :: 0 <= i < k ==> Settled(sorted[i], paths[i], t)
      invariant forall i :: k <= i < |sorted| ==> unchanged(sorted[i])
    {
      var placed;
      ghost var p;
      placed, p := root.Add(sorted[k]);
      SpecsMore(sorted, k);
      ghost var path := if placed then Some(p) else None;
      MoreProgress(first, Specs(sorted[..k]), paths, t, sorted[k].spec, path, root.tree);
      StillHold(t, sorted[k].spec, root.tree);
      paths := paths + [path];
      t := root.tree;
    }
    assert sorted[..|sorted|] == sorted;
    root.Self();
  }
}
