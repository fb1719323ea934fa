/** The sprite packer's tree as a value (src/model/Sprite.cpp).  Subnodes are an
    unordered set in the program, so placing a tile is a relation: any subnode
    that can take the tile may be the one that gets it. */
module SpriteTree {
  import opened Basics

  datatype Rect = Rect(x: nat, y: nat, w: nat, h: nat)

  datatype TileSpec = TileSpec(id: nat, width: nat, height: nat, padding: nat) {
    function GrossWidth(): nat { width + 2 * padding }
    function GrossHeight(): nat { height + 2 * padding }
  }

  /** How a node came about: a leftover of its parent, or a strip the root grew by. */
  datatype Role = Root | Bottom | Right | Strip

  /** `split` is the node's area when its tile was placed. */
  datatype Tree = Node(role: Role, bounds: Rect, tile: Option<TileSpec>, split: Rect, kids: seq<Tree>)

  function Leaf(role: Role, bounds: Rect): Tree {
    Node(role, bounds, None, bounds, [])
  }

  // ----- Placing -----

  predicate Fits(s: TileSpec, r: Rect) {
    r.w >= s.GrossWidth() && r.h >= s.GrossHeight()
  }

  /** The two leftovers of an area that has taken a tile; each has the full extent
      of the area in the other direction, so they share a corner. */
  function BottomOf(r: Rect, s: TileSpec): Rect
    requires Fits(s, r)
  {
    Rect(r.x, r.y + s.GrossHeight(), r.w, r.h - s.GrossHeight())
  }

  function RightOf(r: Rect, s: TileSpec): Rect
    requires Fits(s, r)
  {
    Rect(r.x + s.GrossWidth(), r.y, r.w - s.GrossWidth(), r.h)
  }

  function Leftovers(r: Rect, s: TileSpec): seq<Tree>
    requires Fits(s, r)
  {
    (if r.h > s.GrossHeight() then [Leaf(Bottom, BottomOf(r, s))] else [])
    + (if r.w > s.GrossWidth() then [Leaf(Right, RightOf(r, s))] else [])
  }

  predicate Takes(t: Tree, s: TileSpec) {
    t.tile.None? && Fits(s, t.bounds)
  }

  function Fill(t: Tree, s: TileSpec): Tree
    requires Takes(t, s)
  {
    t.(tile := Some(s), split := t.bounds, kids := t.kids + Leftovers(t.bounds, s))
  }

  predicate CanPlace(t: Tree, s: TileSpec) {
    Takes(t, s) || exists i :: 0 <= i < |t.kids| && CanPlace(t.kids[i], s)
  }

  /** t' is t after a successful `place`, for some order of visiting subnodes. */
  ghost predicate Placed(t: Tree, s: TileSpec, t': Tree)
    decreases t
  {
    if Takes(t, s) then t' == Fill(t, s)
    else exists i :: 0 <= i < |t.kids| && PlacedIn(t, s, t', i)
  }

  ghost predicate PlacedIn(t: Tree, s: TileSpec, t': Tree, i: nat)
    requires i < |t.kids|
    decreases t, 0
  {
    && |t'.kids| == |t.kids|
    && t' == t.(kids := t.kids[i := t'.kids[i]])
    && Placed(t.kids[i], s, t'.kids[i])
  }

  lemma {:induction false} PlacedCanPlace(t: Tree, s: TileSpec, t': Tree)
    requires Placed(t, s, t')
    ensures CanPlace(t, s)
    decreases t
  {
    if !Takes(t, s) {
      var i :| 0 <= i < |t.kids| && PlacedIn(t, s, t', i);
      PlacedCanPlace(t.kids[i], s, t'.kids[i]);
    }
  }

  // ----- Growing -----

  function GrowRight(t: Tree, extra: nat): Tree {
    var b := t.bounds;
    t.(bounds := b.(w := b.w + extra), kids := t.kids + [Leaf(Strip, Rect(b.x + b.w, b.y, extra, b.h))])
  }

  function GrowDown(t: Tree, extra: nat): Tree {
    var b := t.bounds;
    t.(bounds := b.(h := b.h + extra), kids := t.kids + [Leaf(Strip, Rect(b.x, b.y + b.h, b.w, extra))])
  }

  function GrowToFit(t: Tree, s: TileSpec): Tree {
    var b, w, h := t.bounds, s.GrossWidth(), s.GrossHeight();
    var canGrowDown := w <= b.w;
    var canGrowRight := h <= b.h;
    if canGrowRight && b.h >= b.w + w then GrowRight(t, w)
    else if canGrowDown && b.w >= b.h + h then GrowDown(t, h)
    else if canGrowRight then GrowRight(t, w)
    else GrowDown(t, h)
  }

  /** Placing the tile in the strip that was added last; a tile that does not fit
      there stays unplaced. */
  function FillLast(t: Tree, s: TileSpec): Tree
    requires t.kids != []
  {
    var last := |t.kids| - 1;
    if Takes(t.kids[last], s) then t.(kids := t.kids[last := Fill(t.kids[last], s)]) else t
  }

  function Extended(t: Tree, s: TileSpec): Tree {
    FillLast(GrowToFit(t, s), s)
  }

  /** One turn of the loop in `build`. */
  ghost predicate Added(t: Tree, s: TileSpec, t': Tree) {
    if CanPlace(t, s) then Placed(t, s, t') else t' == Extended(t, s)
  }

  ghost predicate Built(t: Tree, tiles: seq<TileSpec>, t': Tree)
    decreases |tiles|
  {
    if tiles == [] then t' == t
    else exists m :: Added(t, tiles[0], m) && Built(m, tiles[1..], t')
  }

  function Start(s: TileSpec): Tree {
    Leaf(Root, Rect(0, 0, s.GrossWidth(), s.GrossHeight()))
  }

  // ----- Areas -----

  predicate Inside(r: Rect, outer: Rect) {
    outer.x <= r.x && r.x + r.w <= outer.x + outer.w && outer.y <= r.y && r.y + r.h <= outer.y + outer.h
  }

  function Min(a: nat, b: nat): nat { if a < b then a else b }

  function Max(a: nat, b: nat): nat { if a < b then b else a }

  predicate ShareArea(r: Rect, q: Rect) {
    && Max(r.x, q.x) < Min(r.x + r.w, q.x + q.w)
    && Max(r.y, q.y) < Min(r.y + r.h, q.y + q.h)
  }

  /** All that r and q have in common lies in c. */
  predicate ShareOnlyIn(r: Rect, q: Rect, c: Rect) {
    && c.x <= Max(r.x, q.x) && Min(r.x + r.w, q.x + q.w) <= c.x + c.w
    && c.y <= Max(r.y, q.y) && Min(r.y + r.h, q.y + q.h) <= c.y + c.h
  }

  /** The area a placed tile takes, with its padding. */
  function Gross(t: Tree): Rect
    requires t.tile.Some?
  {
    Rect(t.bounds.x, t.bounds.y, t.tile.value.GrossWidth(), t.tile.value.GrossHeight())
  }

  // ----- Paths -----

  predicate IsPath(t: Tree, path: seq<nat>)
    decreases |path|
  {
    path == [] || (path[0] < |t.kids| && IsPath(t.kids[path[0]], path[1..]))
  }

  function At(t: Tree, path: seq<nat>): Tree
    requires IsPath(t, path)
    decreases |path|
  {
    if path == [] then t else At(t.kids[path[0]], path[1..])
  }

  // ----- Containment -----

  /** Every node lies in its parent and every tile in its node. */
  ghost predicate Nested(t: Tree)
    decreases t
  {
    && (t.tile.Some? ==> Fits(t.tile.value, t.bounds))
    && forall i :: 0 <= i < |t.kids| ==> Inside(t.kids[i].bounds, t.bounds) && Nested(t.kids[i])
  }

  lemma {:induction false} PlacedKeepsNested(t: Tree, s: TileSpec, t': Tree)
    requires Nested(t) && Placed(t, s, t')
    ensures Nested(t') && t'.bounds == t.bounds
    decreases t
  {
    if !Takes(t, s) {
      var i :| 0 <= i < |t.kids| && PlacedIn(t, s, t', i);
      PlacedKeepsNested(t.kids[i], s, t'.kids[i]);
    }
  }

  lemma GrowKeepsNested(t: Tree, s: TileSpec)
    requires Nested(t)
    ensures Nested(GrowToFit(t, s)) && Inside(t.bounds, GrowToFit(t, s).bounds)
  {
  }

  lemma FillLastKeepsNested(t: Tree, s: TileSpec)
    requires Nested(t) && t.kids != []
    ensures Nested(FillLast(t, s)) && FillLast(t, s).bounds == t.bounds
  {
    hide Fill;
    if Takes(t.kids[|t.kids| - 1], s) { FillKeepsNested(t.kids[|t.kids| - 1], s); }
  }

  lemma FillKeepsNested(t: Tree, s: TileSpec)
    requires Nested(t) && Takes(t, s)
    ensures Nested(Fill(t, s)) && Fill(t, s).bounds == t.bounds
  {
  }

  lemma AddedKeepsNested(t: Tree, s: TileSpec, t': Tree)
    requires Nested(t) && Added(t, s, t')
    ensures Nested(t') && Inside(t.bounds, t'.bounds)
  {
    hide Nested, GrowToFit, FillLast;
    if CanPlace(t, s) {
      PlacedKeepsNested(t, s, t');
    } else {
      GrowKeepsNested(t, s);
      assert GrowToFit(t, s).kids != [] by { GrowthAddsStrip(t, s); }
      FillLastKeepsNested(GrowToFit(t, s), s);
    }
  }

  lemma GrowthAddsStrip(t: Tree, s: TileSpec)
    ensures var g := GrowToFit(t, s);
            |g.kids| == |t.kids| + 1 && g.kids[..|t.kids|] == t.kids && g == t.(bounds := g.bounds, kids := g.kids)
            && g.kids[|t.kids|] == Leaf(Strip, g.kids[|t.kids|].bounds)
  {
  }

  lemma {:induction false} BuiltKeepsNested(t: Tree, tiles: seq<TileSpec>, t': Tree)
    requires Nested(t) && Built(t, tiles, t')
    ensures Nested(t') && Inside(t.bounds, t'.bounds)
    decreases |tiles|
  {
    if tiles != [] {
      var m :| Added(t, tiles[0], m) && Built(m, tiles[1..], t');
      AddedKeepsNested(t, tiles[0], m);
      BuiltKeepsNested(m, tiles[1..], t');
    }
  }

  lemma {:induction false} NestedInside(t: Tree, path: seq<nat>)
    requires Nested(t) && IsPath(t, path)
    ensures Inside(At(t, path).bounds, t.bounds)
    ensures At(t, path).tile.Some? ==> Inside(Gross(At(t, path)), t.bounds)
    decreases |path|
  {
    if path != [] { NestedInside(t.kids[path[0]], path[1..]); }
  }

  /** For every tile list, padding and subnode order: every placed tile lies, with
      its padding, inside the sheet. */
  lemma {:induction false} TilesInsideSheet(first: TileSpec, tiles: seq<TileSpec>, t: Tree, path: seq<nat>)
    requires Built(Start(first), tiles, t)
    requires IsPath(t, path) && At(t, path).tile.Some?
    ensures Inside(Gross(At(t, path)), t.bounds)
  {
    BuiltKeepsNested(Start(first), tiles, t);
    NestedInside(t, path);
  }

  // ----- Overlap -----

  /** A leftover is where its parent's split put it; a strip lies outside the
      area that was split. */
  predicate KidFits(t: Tree, k: Tree) {
    match k.role
    case Bottom => t.tile.Some? && Fits(t.tile.value, t.split) && k.bounds == BottomOf(t.split, t.tile.value)
    case Right => t.tile.Some? && Fits(t.tile.value, t.split) && k.bounds == RightOf(t.split, t.tile.value)
    case Strip => t.role.Root? && (t.tile.Some? ==> !ShareArea(k.bounds, t.split))
    case Root => false
  }

  /** Two subnodes are the two leftovers, or one of them is a strip that lies apart. */
  predicate KidsApart(k: Tree, l: Tree) {
    (k.role.Strip? || l.role.Strip? ==> !ShareArea(k.bounds, l.bounds)) && (k.role == l.role ==> k.role.Strip?)
  }

  /** How every tree looks whose root took its tile before it grew. */
  ghost predicate Shaped(t: Tree)
    decreases t
  {
    && (if t.role.Root? then t.tile.Some? && Inside(t.split, t.bounds) && t.split.x == t.bounds.x && t.split.y == t.bounds.y
        else t.tile.None? ==> t.kids == [])
    && (t.tile.Some? ==> Fits(t.tile.value, t.split))
    && (t.tile.Some? && !t.role.Root? ==> t.split == t.bounds)
    && (forall i :: 0 <= i < |t.kids| ==> KidFits(t, t.kids[i]) && Shaped(t.kids[i]))
    && (forall i, j :: 0 <= i < j < |t.kids| ==> KidsApart(t.kids[i], t.kids[j]))
  }

  lemma {:induction false} FillIsShaped(t: Tree, s: TileSpec)
    requires Takes(t, s) && t.kids == []
    ensures Shaped(Fill(t, s))
  {
    var b := t.bounds;
    assert forall k :: k in Leftovers(b, s) ==> Shaped(k);
  }

  lemma {:induction false} PlacedKeepsShaped(t: Tree, s: TileSpec, t': Tree)
    requires Shaped(t) && Placed(t, s, t')
    ensures Shaped(t') && t'.role == t.role && t'.bounds == t.bounds
    decreases t
  {
    if Takes(t, s) {
      FillIsShaped(t, s);
    } else {
      var i :| 0 <= i < |t.kids| && PlacedIn(t, s, t', i);
      PlacedKeepsShaped(t.kids[i], s, t'.kids[i]);
    }
  }

  lemma {:induction false} GrowKeepsShaped(t: Tree, s: TileSpec)
    requires Shaped(t) && Nested(t) && t.role.Root?
    ensures Shaped(GrowToFit(t, s))
  {
    var g, n := GrowToFit(t, s), |t.kids|;
    GrowthAddsStrip(t, s);
    NewStripApart(t, s);
    hide GrowToFit, ShareArea, Inside, Fits;
    assert forall i :: 0 <= i < n ==> g.kids[i] == g.kids[..n][i] == t.kids[i];
    StripWidens(t, s);
    var strip := g.kids[n];
    assert KidFits(g, strip);
    forall i | 0 <= i < n ensures KidFits(g, g.kids[i]) && KidsApart(g.kids[i], strip) {
      assert Inside(t.kids[i].bounds, t.bounds) && KidFits(t, t.kids[i]);
    }
  }

  lemma StripWidens(t: Tree, s: TileSpec)
    requires Inside(t.split, t.bounds)
    ensures Inside(t.split, GrowToFit(t, s).bounds)
    ensures GrowToFit(t, s).bounds.x == t.bounds.x && GrowToFit(t, s).bounds.y == t.bounds.y
  {
  }

  /** A new strip has nothing in common with what the root covered before. */
  lemma NewStripApart(t: Tree, s: TileSpec)
    ensures forall r :: Inside(r, t.bounds) ==>
              !ShareArea(GrowToFit(t, s).kids[|t.kids|].bounds, r) && !ShareArea(r, GrowToFit(t, s).kids[|t.kids|].bounds)
  {
  }

  lemma {:induction false} FillLastKeepsShaped(t: Tree, s: TileSpec)
    requires Shaped(t) && t.kids != []
    ensures Shaped(FillLast(t, s)) && FillLast(t, s).role == t.role
  {
    var last := |t.kids| - 1;
    if Takes(t.kids[last], s) {
      if t.kids[last].kids == [] { FillIsShaped(t.kids[last], s); }
      hide Fits, ShareArea, Inside;
    }
  }

  lemma AddedKeepsShaped(t: Tree, s: TileSpec, t': Tree)
    requires Shaped(t) && Nested(t) && t.role.Root? && Added(t, s, t')
    ensures Shaped(t') && Nested(t') && t'.role.Root?
  {
    AddedKeepsNested(t, s, t');
    hide Nested, Shaped, GrowToFit, FillLast;
    if CanPlace(t, s) {
      PlacedKeepsShaped(t, s, t');
    } else {
      GrowKeepsShaped(t, s);
      GrowthAddsStrip(t, s);
      FillLastKeepsShaped(GrowToFit(t, s), s);
    }
  }

  lemma {:induction false} BuiltKeepsShaped(t: Tree, tiles: seq<TileSpec>, t': Tree)
    requires Shaped(t) && Nested(t) && t.role.Root? && Built(t, tiles, t')
    ensures Shaped(t') && Nested(t') && t'.role.Root?
    decreases |tiles|
  {
    if tiles != [] {
      var m :| Added(t, tiles[0], m) && Built(m, tiles[1..], t');
      AddedKeepsShaped(t, tiles[0], m);
      BuiltKeepsShaped(m, tiles[1..], t');
    }
  }

  lemma Apart(r: Rect, outer: Rect, q: Rect, outer': Rect)
    requires Inside(r, outer) && Inside(q, outer') && !ShareArea(outer, outer')
    ensures !ShareArea(r, q)
  {
  }

  /** A tile has nothing in common with what is placed below its own node. */
  lemma {:induction false} TileApartFromKids(t: Tree, i: nat, r: Rect)
    requires Shaped(t) && t.tile.Some? && i < |t.kids| && Inside(r, t.kids[i].bounds)
    ensures !ShareArea(Gross(t), r) && !ShareArea(r, Gross(t))
  {
    var k := t.kids[i];
    assert KidFits(t, k);
    assert Inside(Gross(t), t.split);
    if k.role.Strip? { Apart(r, k.bounds, Gross(t), t.split); }
  }

  function Corner(t: Tree): Rect
    requires t.tile.Some? && Fits(t.tile.value, t.split)
  {
    var s, r := t.tile.value, t.split;
    Rect(r.x + s.GrossWidth(), r.y + s.GrossHeight(), r.w - s.GrossWidth(), r.h - s.GrossHeight())
  }

  /** The nodes at p and q part at depth n, one into the bottom leftover and the
      other into the right one, and their tiles meet only in the shared corner. */
  ghost predicate MeetInCorner(t: Tree, p: seq<nat>, q: seq<nat>, n: nat)
    requires IsPath(t, p) && IsPath(t, q) && At(t, p).tile.Some? && At(t, q).tile.Some?
  {
    && n < |p| && n < |q| && p[..n] == q[..n] && IsPath(t, p[..n])
    && var a := At(t, p[..n]);
       && a.tile.Some? && Fits(a.tile.value, a.split)
       && p[n] < |a.kids| && q[n] < |a.kids|
       && ((a.kids[p[n]].role.Bottom? && a.kids[q[n]].role.Right?) || (a.kids[p[n]].role.Right? && a.kids[q[n]].role.Bottom?))
       && ShareOnlyIn(Gross(At(t, p)), Gross(At(t, q)), Corner(a))
  }

  lemma LeftoversMeetInCorner(r: Rect, s: TileSpec, g: Rect, h: Rect)
    requires Fits(s, r) && Inside(g, BottomOf(r, s)) && Inside(h, RightOf(r, s))
    ensures var corner := Rect(r.x + s.GrossWidth(), r.y + s.GrossHeight(), r.w - s.GrossWidth(), r.h - s.GrossHeight());
            ShareOnlyIn(g, h, corner) && ShareOnlyIn(h, g, corner)
  {
  }

  lemma KidsFacts(t: Tree, i: nat, j: nat)
    requires Shaped(t) && i < |t.kids| && j < |t.kids| && i != j
    ensures KidFits(t, t.kids[i]) && KidFits(t, t.kids[j])
    ensures KidsApart(t.kids[i], t.kids[j]) || KidsApart(t.kids[j], t.kids[i])
  {
  }

  /** Subtrees under different subnodes of one node. */
  lemma {:induction false} SubtreesApart(t: Tree, i: nat, j: nat, g: Rect, h: Rect)
    requires Shaped(t) && i < |t.kids| && j < |t.kids| && i != j
    requires Inside(g, t.kids[i].bounds) && Inside(h, t.kids[j].bounds) && ShareArea(g, h)
    ensures t.tile.Some? && Fits(t.tile.value, t.split)
    ensures (t.kids[i].role.Bottom? && t.kids[j].role.Right?) || (t.kids[i].role.Right? && t.kids[j].role.Bottom?)
    ensures ShareOnlyIn(g, h, Corner(t))
  {
    var k, l := t.kids[i], t.kids[j];
    KidsFacts(t, i, j);
    hide Shaped, ShareArea, ShareOnlyIn, Inside, BottomOf, RightOf, Fits;
    if k.role.Strip? || l.role.Strip? {
      ShareAreaSwaps(k.bounds, l.bounds);
      Apart(g, k.bounds, h, l.bounds);
    } else if k.role.Bottom? {
      LeftoversMeetInCorner(t.split, t.tile.value, g, h);
    } else {
      LeftoversMeetInCorner(t.split, t.tile.value, h, g);
    }
  }

  lemma ShareAreaSwaps(r: Rect, q: Rect)
    ensures ShareArea(r, q) <==> ShareArea(q, r)
  {
  }

  lemma {:induction false} WhereTheyPart(t: Tree, p: seq<nat>, q: seq<nat>) returns (n: nat)
    requires Shaped(t) && Nested(t) && IsPath(t, p) && IsPath(t, q) && p != q
    requires At(t, p).tile.Some? && At(t, q).tile.Some? && ShareArea(Gross(At(t, p)), Gross(At(t, q)))
    ensures MeetInCorner(t, p, q, n)
    decreases |p|
  {
    hide ShareArea, ShareOnlyIn, Inside, Fits, KidFits, KidsApart, Gross;
    var g, h := Gross(At(t, p)), Gross(At(t, q));
    if p == [] {
      NestedInside(t.kids[q[0]], q[1..]);
      TileApartFromKids(t, q[0], h);
      assert false;
    } else if q == [] {
      NestedInside(t.kids[p[0]], p[1..]);
      TileApartFromKids(t, p[0], g);
      assert false;
    } else if p[0] != q[0] {
      NestedInside(t.kids[p[0]], p[1..]);
      NestedInside(t.kids[q[0]], q[1..]);
      SubtreesApart(t, p[0], q[0], g, h);
      n := 0;
    } else {
      assert p == [p[0]] + p[1..] && q == [q[0]] + q[1..];
      n := WhereTheyPart(t.kids[p[0]], p[1..], q[1..]);
      MeetDeeper(t, p, q, n);
      n := n + 1;
    }
  }

  lemma MeetDeeper(t: Tree, p: seq<nat>, q: seq<nat>, n: nat)
    requires IsPath(t, p) && IsPath(t, q) && p != [] && q != [] && p[0] == q[0]
    requires At(t, p).tile.Some? && At(t, q).tile.Some?
    requires MeetInCorner(t.kids[p[0]], p[1..], q[1..], n)
    ensures MeetInCorner(t, p, q, n + 1)
  {
    hide ShareOnlyIn, Fits, Gross;
    assert p[..n + 1] == [p[0]] + p[1..][..n] && q[..n + 1] == [q[0]] + q[1..][..n];
    assert p[..n + 1][1..] == p[1..][..n];
  }

  /** Overlaps are local: in a sheet whose first tile fitted the initial root, two
      different tiles share area only if one was placed under the bottom leftover
      and the other under the right leftover of one node, and then only in the
      corner the two leftovers share. */
  lemma {:induction false} OverlapOnlyInCorners(first: TileSpec, tiles: seq<TileSpec>, t: Tree, p: seq<nat>, q: seq<nat>)
    requires tiles != [] && Fits(tiles[0], Start(first).bounds) && Built(Start(first), tiles, t)
    requires IsPath(t, p) && IsPath(t, q) && p != q
    requires At(t, p).tile.Some? && At(t, q).tile.Some? && ShareArea(Gross(At(t, p)), Gross(At(t, q)))
    ensures exists n :: MeetInCorner(t, p, q, n)
  {
    FirstTileFirst(first, tiles, t);
    hide MeetInCorner, ShareArea, Built, Gross;
    var n := WhereTheyPart(t, p, q);
  }

  /** The first tile is put into the empty root, which is well shaped from then on. */
  lemma {:induction false} FirstTileFirst(first: TileSpec, tiles: seq<TileSpec>, t: Tree)
    requires tiles != [] && Fits(tiles[0], Start(first).bounds) && Built(Start(first), tiles, t)
    ensures Shaped(t) && Nested(t)
  {
    var root := Start(first);
    var m :| Added(root, tiles[0], m) && Built(m, tiles[1..], t);
    assert m == Fill(root, tiles[0]);
    FillIsShaped(root, tiles[0]);
    FillKeepsNested(root, tiles[0]);
    hide Shaped, Nested;
    BuiltKeepsShaped(m, tiles[1..], t);
  }
}
