/** The monotone-chain convex hull of an image's foreground
    (lib/ImageMagick/MagickCore/attribute.c).  Coordinates are pixel positions,
    hence integers. */
module ConvexHull {

  datatype Point = Point(x: int, y: int)

  /** Twice the signed area of the triangle a, b, c: positive when c lies to the
      left of the line from a to b. */
  function LexicographicalOrder(a: Point, b: Point, c: Point): int {
    (b.x - a.x) * (c.y - a.y) - (b.y - a.y) * (c.x - a.x)
  }

  /** The order in which the pixel scan meets the points: by row, then by column. */
  predicate Before(a: Point, b: Point) {
    a.y < b.y || (a.y == b.y && a.x < b.x)
  }

  /** The order in which a pass meets the points: the first pass goes up the
      scan order, the second one down. */
  predicate Ahead(up: bool, a: Point, b: Point) {
    if up then Before(a, b) else Before(b, a)
  }

  ghost predicate StrictlySorted(vertices: seq<Point>) {
    forall i, j :: 0 <= i < j < |vertices| ==> Before(vertices[i], vertices[j])
  }

  ghost predicate OnOrLeft(a: Point, b: Point, q: Point) {
    LexicographicalOrder(a, b, q) >= 0
  }

  /** No edge of the chain has a point of `points` to its right. */
  ghost predicate Encloses(chain: seq<Point>, points: set<Point>) {
    forall q, k :: q in points && 0 <= k < |chain| - 1 ==> OnOrLeft(chain[k], chain[k + 1], q)
  }

  ghost predicate TurnsStrictlyLeft(chain: seq<Point>) {
    forall k :: 0 <= k < |chain| - 2 ==> LexicographicalOrder(chain[k], chain[k + 1], chain[k + 2]) > 0
  }

  // ----- Directions in a half plane are ordered by angle -----

  function Cross(u: Point, v: Point): int {
    u.x * v.y - u.y * v.x
  }

  function Minus(a: Point, b: Point): Point {
    Point(a.x - b.x, a.y - b.y)
  }

  /** A direction in the half plane of the pass's direction of travel. */
  predicate Forward(up: bool, u: Point) {
    Ahead(up, Point(0, 0), u)
  }

  /** Within a half plane "not clockwise of" is transitive. */
  lemma CrossTransitive(up: bool, u: Point, v: Point, w: Point)
    requires Forward(up, u) && Forward(up, v) && Forward(up, w)
    requires Cross(u, v) >= 0 && Cross(v, w) >= 0
    ensures Cross(u, w) >= 0
  {
    assert Cross(u, w) * v.y == Cross(u, v) * w.y + Cross(v, w) * u.y;
  }

  lemma CrossSwaps(u: Point, v: Point)
    ensures Cross(u, v) == -Cross(v, u)
  {
  }

  /** The test is the cross product of the two edge directions, from either end. */
  lemma OrderIsCross(a: Point, b: Point, c: Point)
    ensures LexicographicalOrder(a, b, c) == Cross(Minus(b, a), Minus(c, a))
    ensures LexicographicalOrder(a, b, c) == Cross(Minus(b, a), Minus(c, b))
    ensures LexicographicalOrder(a, b, c) == -LexicographicalOrder(a, c, b)
    ensures a == c || b == c ==> LexicographicalOrder(a, b, c) == 0
  {
  }

  // ----- One pass: a stack of hull candidates -----

  /** What holds of the stack of a pass that has met the points `done`. */
  ghost predicate PassInvariant(up: bool, stack: seq<Point>, done: set<Point>) {
    && Spine(up, stack, done)
    && forall q :: q in done ==> q == stack[|stack| - 1] || Ahead(up, q, stack[|stack| - 1])
  }

  ghost predicate Spine(up: bool, stack: seq<Point>, done: set<Point>) {
    && |stack| > 0
    && (forall k :: 0 <= k < |stack| ==> stack[k] in done)
    && (forall j, k :: 0 <= j < k < |stack| ==> Ahead(up, stack[j], stack[k]))
    && (forall q :: q in done ==> q == stack[0] || Ahead(up, stack[0], q))
    && TurnsStrictlyLeft(stack)
    && Encloses(stack, done)
  }

  /** What holds while points are popped to make room for p: the edge that would
      lead to p leaves everything met since the top of the stack on its left. */
  ghost predicate PopInvariant(up: bool, stack: seq<Point>, done: set<Point>, p: Point) {
    && Spine(up, stack, done)
    && (forall q :: q in done ==> Ahead(up, q, p))
    && forall q :: q in done && (q == stack[|stack| - 1] || Ahead(up, stack[|stack| - 1], q)) ==>
        OnOrLeft(stack[|stack| - 1], p, q)
  }

  lemma PassStarts(up: bool, v: Point)
    ensures PassInvariant(up, [v], {v}) && Members([v]) == {v}
  {
  }

  lemma PopStarts(up: bool, stack: seq<Point>, done: set<Point>, p: Point)
    requires PassInvariant(up, stack, done)
    requires forall q :: q in done ==> Ahead(up, q, p)
    ensures PopInvariant(up, stack, done, p)
  {
  }

  /** A popped vertex does no harm: it lies left of the edge that replaces it,
      and so does whatever lay left of its own edges. */
  lemma PopKeeps(up: bool, stack: seq<Point>, done: set<Point>, p: Point)
    requires PopInvariant(up, stack, done, p)
    requires |stack| >= 2
    requires LexicographicalOrder(stack[|stack| - 2], stack[|stack| - 1], p) <= 0
    ensures PopInvariant(up, stack[..|stack| - 1], done, p)
  {
    var n := |stack|;
    var s, t := stack[n - 2], stack[n - 1];
    forall q | q in done && (q == s || Ahead(up, s, q))
      ensures OnOrLeft(s, p, q)
    {
      assert OnOrLeft(stack[n - 2], stack[n - 2 + 1], q);
      PoppedEdge(up, s, t, p, q);
    }
  }

  lemma PoppedEdge(up: bool, s: Point, t: Point, p: Point, q: Point)
    requires Ahead(up, s, t) && Ahead(up, t, p)
    requires q == s || Ahead(up, s, q)
    requires LexicographicalOrder(s, t, p) <= 0
    requires OnOrLeft(s, t, q)
    requires q == t || Ahead(up, t, q) ==> OnOrLeft(t, p, q)
    ensures OnOrLeft(s, p, q)
  {
    SplitEdge(s, t, p, q);
    if q == s {
      OrderIsCross(s, p, q);
    } else if !(q == t || Ahead(up, t, q)) {
      OrderIsCross(s, t, p);
      OrderIsCross(s, t, q);
      CrossSwaps(Minus(t, s), Minus(p, t));
      CrossTransitive(up, Minus(p, t), Minus(t, s), Minus(q, s));
    }
  }

  /** Area of s, p, q seen from the popped vertex t. */
  lemma SplitEdge(s: Point, t: Point, p: Point, q: Point)
    ensures LexicographicalOrder(s, p, q) == LexicographicalOrder(s, t, q) + Cross(Minus(p, t), Minus(q, s))
    ensures LexicographicalOrder(s, p, q) ==
            LexicographicalOrder(s, t, q) + LexicographicalOrder(t, p, q) - LexicographicalOrder(s, t, p)
  {
  }

  /** Once the turn at the top is strictly left (or only one point is left), p
      can be pushed. */
  lemma PushKeeps(up: bool, stack: seq<Point>, done: set<Point>, p: Point)
    requires PopInvariant(up, stack, done, p)
    requires TurnsTo(stack, p)
    ensures PassInvariant(up, stack + [p], done + {p})
  {
    assert TurnsStrictlyLeft(stack + [p]) by { PushTurns(up, stack, done, p); }
    assert Encloses(stack + [p], done + {p}) by { PushEncloses(up, stack, done, p); }
  }

  /** The turn from the last edge of the stack towards p is strictly left. */
  ghost predicate TurnsTo(stack: seq<Point>, p: Point) {
    |stack| >= 2 ==> LexicographicalOrder(stack[|stack| - 2], stack[|stack| - 1], p) > 0
  }

  lemma PushTurns(up: bool, stack: seq<Point>, done: set<Point>, p: Point)
    requires Spine(up, stack, done) && TurnsTo(stack, p)
    ensures TurnsStrictlyLeft(stack + [p])
  {
  }

  lemma PushEncloses(up: bool, stack: seq<Point>, done: set<Point>, p: Point)
    requires PopInvariant(up, stack, done, p) && TurnsTo(stack, p)
    ensures Encloses(stack + [p], done + {p})
  {
    var chain := stack + [p];
    forall q, k | q in done + {p} && 0 <= k < |chain| - 1
      ensures OnOrLeft(chain[k], chain[k + 1], q)
    {
      if q == p {
        NewPointLeft(up, stack, done, p, k);
      } else if k == |stack| - 1 {
        NewEdgeEncloses(up, stack, done, p, q);
      } else {
        assert OnOrLeft(stack[k], stack[k + 1], q);
      }
    }
  }

  /** The new point is left of every edge that is still on the stack. */
  lemma {:induction false} NewPointLeft(up: bool, stack: seq<Point>, done: set<Point>, p: Point, k: nat)
    requires Spine(up, stack, done)
    requires forall q :: q in done ==> Ahead(up, q, p)
    requires TurnsTo(stack, p)
    requires k < |stack|
    ensures OnOrLeft(stack[k], (stack + [p])[k + 1], p)
    decreases |stack| - k
  {
    if k == |stack| - 1 {
      OrderIsCross(stack[k], p, p);
    } else if k < |stack| - 2 {
      NewPointLeft(up, stack, done, p, k + 1);
      var a, b, c := stack[k], stack[k + 1], stack[k + 2];
      OrderIsCross(a, b, c);
      OrderIsCross(b, c, p);
      OrderIsCross(a, b, p);
      CrossTransitive(up, Minus(b, a), Minus(c, b), Minus(p, b));
    }
  }

  lemma NewEdgeEncloses(up: bool, stack: seq<Point>, done: set<Point>, p: Point, q: Point)
    requires PopInvariant(up, stack, done, p)
    requires TurnsTo(stack, p)
    requires q in done
    ensures OnOrLeft(stack[|stack| - 1], p, q)
  {
    var n := |stack|;
    if n >= 2 {
      assert OnOrLeft(stack[n - 2], stack[n - 2 + 1], q);
      if q != stack[n - 1] && !Ahead(up, stack[n - 1], q) {
        EarlierPointLeft(up, stack[n - 2], stack[n - 1], p, q);
      }
    }
  }

  lemma EarlierPointLeft(up: bool, s: Point, t: Point, p: Point, q: Point)
    requires Ahead(up, s, t) && Ahead(up, t, p) && Ahead(up, q, t)
    requires LexicographicalOrder(s, t, p) > 0 && OnOrLeft(s, t, q)
    ensures OnOrLeft(t, p, q)
  {
  }

  ghost function Members(s: seq<Point>): set<Point> {
    set p | p in s
  }

  /** What the hull construction promises of the returned chain; `turn` is the
      position of the last point, where the second pass takes over. */
  ghost predicate IsHull(vertices: seq<Point>, chain: seq<Point>, turn: nat) {
    && turn < |chain| <= 2 * |vertices|
    && Members(chain) <= Members(vertices)
    && Encloses(chain, Members(vertices))
    && chain[0] == vertices[0]
    && chain[turn] == vertices[|vertices| - 1]
    && chain[|chain| - 1] == vertices[0]
    && TwoArcs(chain, turn)
  }

  ghost predicate TwoArcs(chain: seq<Point>, turn: nat) {
    turn < |chain| && TurnsStrictlyLeft(chain[..turn + 1]) && TurnsStrictlyLeft(chain[turn..])
  }

  // ----- The algorithm -----

  /** Pops while the turn towards v is not strictly left, but never below `demark`. */
  method PopVertices(chain: array<Point>, length: nat, demark: nat, v: Point, ghost up: bool, ghost done: set<Point>)
    returns (n: nat, ghost tests: nat)
    requires 2 <= demark <= length + 1 && length < chain.Length
    requires PopInvariant(up, chain[demark - 2..length], done, v)
    ensures demark - 2 < n <= length && n + tests <= length + 1
    ensures PopInvariant(up, chain[demark - 2..n], done, v) && TurnsTo(chain[demark - 2..n], v)
  {
    hide LexicographicalOrder, PopInvariant;
    n, tests := length, 0;
    ghost var base := demark - 2;
    while n >= demark && LexicographicalOrder(chain[n - 2], chain[n - 1], v) <= 0
      invariant base < n <= length && n + tests <= length
      invariant PopInvariant(up, chain[base..n], done, v)
    {
      PopKeeps(up, chain[base..n], done, v);
      assert chain[base..n][..n - base - 1] == chain[base..n - 1];
      n, tests := n - 1, tests + 1;
    }
    if n >= demark { tests := tests + 1; }
  }

  /** The step both passes share: make room for v, then push it. */
  method AddVertex(chain: array<Point>, length: nat, demark: nat, v: Point, ghost up: bool, ghost done: set<Point>)
    returns (n: nat, ghost tests: nat)
    requires 2 <= demark <= length + 2 && length < chain.Length
    requires forall q :: q in done ==> Ahead(up, q, v)
    requires if length == demark - 2 then done == {} else PassInvariant(up, chain[demark - 2..length], done)
    modifies chain
    ensures demark - 2 < n <= length + 1
    ensures n + tests <= length + 2
    ensures forall k :: 0 <= k < demark - 2 ==> chain[k] == old(chain[k])
    ensures length > demark - 2 ==> n > demark - 1 && chain[demark - 2] == old(chain[demark - 2])
    ensures chain[n - 1] == v
    ensures PassInvariant(up, chain[demark - 2..n], done + {v})
  {
    hide PassInvariant, PopInvariant, Ahead, TurnsTo;
    n, tests := length, 0;
    ghost var base := demark - 2;
    if n + 1 >= demark {
      PopStarts(up, chain[base..n], done, v);
      n, tests := PopVertices(chain, n, demark, v, up, done);
      PushKeeps(up, chain[base..n], done, v);
    } else {
      PassStarts(up, v);
    }
    ghost var stack := chain[base..n];
    chain[n] := v;
    n := n + 1;
    assert chain[base..n] == stack + [v];
    assert stack == [] ==> [] + [v] == [v] && {} + {v} == {v};
  }

  method TraceConvexHull(vertices: array<Point>, count: nat, chain: array<Point>)
    returns (n: nat, ghost turn: nat, ghost tests: nat)
    requires count <= vertices.Length && StrictlySorted(vertices[..count])
    requires vertices != chain && chain.Length >= 2 * count
    modifies chain
    ensures n <= chain.Length
    ensures count == 0 ==> n == 0
    ensures count > 0 ==> IsHull(vertices[..count], chain[..n], turn) && tests < 4 * count
  {
    hide PassInvariant, IsHull;
    n, tests := LowerPass(vertices, count, chain);
    turn := 0;
    if count > 0 {
      turn := n - 1;
      ghost var t;
      ghost var lower := chain[..n];
      n, t := UpperPass(vertices, count, chain, n);
      tests := tests + t;
      assert chain[..n][..turn + 1] == lower && chain[..n][turn..] == chain[turn..n];
      HullFromPasses(vertices[..count], chain[..n], turn);
    }
  }

  /** The first pass: from the first vertex to the last one. */
  method LowerPass(vertices: array<Point>, count: nat, chain: array<Point>) returns (n: nat, ghost tests: nat)
    requires count <= vertices.Length && StrictlySorted(vertices[..count])
    requires vertices != chain && chain.Length >= 2 * count
    modifies chain
    ensures n <= count && tests + n <= 2 * count
    ensures count > 0 ==>
      && n > 0 && chain[0] == vertices[0] && chain[n - 1] == vertices[count - 1]
      && PassInvariant(true, chain[..n], Members(vertices[..count]))
  {
    hide *;
    n, tests := 0, 0;
    ghost var t;
    for i := 0 to count
      invariant n <= i && tests + n <= 2 * i
      invariant if i == 0 then n == 0 else n > 0 && chain[0] == vertices[0] && chain[n - 1] == vertices[i - 1]
      invariant i > 0 ==> PassInvariant(true, chain[0..n], Members(vertices[..i]))
    {
      MembersTake(vertices[..count], i);
      assert vertices[..count][..i + 1] == vertices[..i + 1] && vertices[..count][..i] == vertices[..i];
      n, t := AddVertex(chain, n, 2, vertices[i], true, Members(vertices[..i]));
      tests := tests + t;
    }
    assert chain[0..n] == chain[..n];
  }

  /** The second pass: back from the last vertex, stacked on the first pass. */
  method UpperPass(vertices: array<Point>, count: nat, chain: array<Point>, length: nat)
    returns (n: nat, ghost tests: nat)
    requires count <= vertices.Length && StrictlySorted(vertices[..count])
    requires vertices != chain && chain.Length >= 2 * count
    requires 0 < length <= count && chain[length - 1] == vertices[count - 1]
    modifies chain
    ensures length <= n && n + tests <= length + 2 * (count - 1) && n <= length + count - 1
    ensures chain[..length] == old(chain[..length]) && chain[n - 1] == vertices[0]
    ensures PassInvariant(false, chain[length - 1..n], Members(vertices[..count]))
  {
    hide *;
    n, tests := length, 0;
    ghost var t;
    var demark := n + 1;
    var i := count - 2;
    assert chain[length - 1..n] == [vertices[i + 1]] == vertices[i + 1..count];
    PassStarts(false, vertices[i + 1]);
    while i >= 0
      invariant -1 <= i <= count - 2
      invariant length <= n <= length + (count - 2 - i)
      invariant n + tests <= length + 2 * (count - 2 - i)
      invariant chain[..length] == old(chain[..length])
      invariant chain[n - 1] == vertices[i + 1]
      invariant PassInvariant(false, chain[length - 1..n], Members(vertices[i + 1..count]))
    {
      MembersDrop(vertices[..count], i);
      assert vertices[..count][i + 1..] == vertices[i + 1..count] && vertices[..count][i..] == vertices[i..count];
      n, t := AddVertex(chain, n, demark, vertices[i], false, Members(vertices[i + 1..count]));
      tests := tests + t;
      i := i - 1;
    }
    assert vertices[0..count] == vertices[..count];
  }

  lemma MembersTake(s: seq<Point>, i: nat)
    requires StrictlySorted(s) && i < |s|
    ensures Members(s[..i + 1]) == Members(s[..i]) + {s[i]}
    ensures forall q :: q in Members(s[..i]) ==> Ahead(true, q, s[i])
    ensures i == 0 ==> Members(s[..i]) == {}
  {
  }

  lemma MembersDrop(s: seq<Point>, i: nat)
    requires StrictlySorted(s) && i < |s|
    ensures Members(s[i..]) == Members(s[i + 1..]) + {s[i]}
    ensures forall q :: q in Members(s[i + 1..]) ==> Ahead(false, q, s[i])
  {
  }

  /** Two passes that share the last vertex make up the hull. */
  lemma HullFromPasses(vertices: seq<Point>, chain: seq<Point>, turn: nat)
    requires turn < |chain| <= 2 * |vertices|
    requires PassInvariant(true, chain[..turn + 1], Members(vertices))
    requires PassInvariant(false, chain[turn..], Members(vertices))
    requires chain[0] == vertices[0] && chain[turn] == vertices[|vertices| - 1] && chain[|chain| - 1] == vertices[0]
    ensures IsHull(vertices, chain, turn)
  {
  }

  // ----- The pixel scan and the whole operation -----

  /** An image, as far as the scan is concerned: which pixels differ from the
      background colour, and which rows the pixel cache can deliver. */
  datatype Picture = Picture(columns: nat, rows: nat, isForeground: (nat, nat) -> bool, readable: nat -> bool)

  /** A foreground pixel in a row above which (and in which) every row could be read. */
  ghost predicate Scanned(picture: Picture, q: Point) {
    && 0 <= q.x < picture.columns && 0 <= q.y < picture.rows
    && (forall row :: 0 <= row <= q.y ==> picture.readable(row))
    && picture.isForeground(q.x, q.y)
  }

  /** The scan has reached pixel (x, y) and recorded exactly what it had to. */
  ghost predicate Recorded(picture: Picture, vertices: seq<Point>, x: int, y: int) {
    && StrictlySorted(vertices)
    && forall q :: q in vertices <==> Scanned(picture, q) && Before(q, Point(x, y))
  }

  lemma RecordPixel(picture: Picture, vertices: seq<Point>, x: nat, y: nat)
    requires Recorded(picture, vertices, x, y)
    requires x < picture.columns && y < picture.rows && forall row :: 0 <= row <= y ==> picture.readable(row)
    ensures Recorded(picture, if picture.isForeground(x, y) then vertices + [Point(x, y)] else vertices, x + 1, y)
  {
  }

  lemma RecordRow(picture: Picture, vertices: seq<Point>, x: nat, y: nat)
    requires Recorded(picture, vertices, x, y)
    requires x == picture.columns || exists row :: 0 <= row <= y && !picture.readable(row)
    ensures Recorded(picture, vertices, 0, y + 1)
  {
  }

  lemma RowsFit(columns: nat, rows: nat, y: nat)
    requires y < rows
    ensures (y + 1) * columns == y * columns + columns <= columns * rows
  {
  }

  method ScanForeground(picture: Picture, vertices: array<Point>) returns (n: nat)
    requires vertices.Length == picture.columns * picture.rows
    modifies vertices
    ensures n <= vertices.Length && StrictlySorted(vertices[..n])
    ensures forall q :: q in vertices[..n] <==> Scanned(picture, q)
  {
    hide Recorded;
    var status := true;
    n := 0;
    assert Recorded(picture, vertices[..0], 0, 0) by { NothingRecorded(picture); }
    for y := 0 to picture.rows
      invariant n <= y * picture.columns && y * picture.columns <= vertices.Length
      invariant status <==> forall row :: 0 <= row < y ==> picture.readable(row)
      invariant Recorded(picture, vertices[..n], 0, y)
    {
      RowsFit(picture.columns, picture.rows, y);
      if status {
        if !picture.readable(y) {
          status := false;
          RecordRow(picture, vertices[..n], 0, y);
        } else {
          ghost var base := y * picture.columns;
          for x := 0 to picture.columns
            invariant n <= base + x
            invariant Recorded(picture, vertices[..n], x, y)
          {
            RecordPixel(picture, vertices[..n], x, y);
            if picture.isForeground(x, y) {
              ghost var met := vertices[..n];
              vertices[n] := Point(x, y);
              n := n + 1;
              assert vertices[..n] == met + [Point(x, y)];
            }
          }
          RecordRow(picture, vertices[..n], picture.columns, y);
        }
      } else {
        RecordRow(picture, vertices[..n], 0, y);
      }
    }
    AllRecorded(picture, vertices[..n]);
  }

  lemma NothingRecorded(picture: Picture)
    ensures Recorded(picture, [], 0, 0)
  {
  }

  lemma AllRecorded(picture: Picture, vertices: seq<Point>)
    requires Recorded(picture, vertices, 0, picture.rows)
    ensures StrictlySorted(vertices) && forall q :: q in vertices <==> Scanned(picture, q)
  {
  }

  /** Every foreground pixel lies on or left of every edge of the hull; every
      corner is a foreground pixel; the hull starts and ends at the first pixel
      of the scan and consists of two strictly left-turning arcs. */
  method GetImageConvexHull(picture: Picture) returns (hull: array<Point>)
    ensures forall p :: p in hull[..] ==> Scanned(picture, p)
    ensures forall q, k :: Scanned(picture, q) && 0 <= k < hull.Length - 1 ==> OnOrLeft(hull[k], hull[k + 1], q)
    ensures forall q :: Scanned(picture, q) ==>
      hull.Length > 0 && hull[0] == hull[hull.Length - 1] && (q == hull[0] || Before(hull[0], q))
    ensures hull.Length > 0 ==> exists turn :: TwoArcs(hull[..], turn)
  {
    hide PassInvariant, OnOrLeft, LexicographicalOrder, TurnsStrictlyLeft, Scanned;
    var found := new Point[picture.columns * picture.rows];
    var n := ScanForeground(picture, found);
    var chain := new Point[(2 * picture.columns) * (2 * picture.rows)];
    assert chain.Length >= 2 * n by {
      var area := picture.columns * picture.rows;
      assert (2 * picture.columns) * (2 * picture.rows) == 4 * area;
    }
    var length;
    ghost var turn, tests;
    length, turn, tests := TraceConvexHull(found, n, chain);
    hull := new Point[length](i requires 0 <= i < length <= chain.Length reads chain => chain[i]);
    assert hull[..] == chain[..length];
    HullOfScan(picture, found[..n], hull[..], turn);
    forall q, k | Scanned(picture, q) && 0 <= k < hull.Length - 1
      ensures OnOrLeft(hull[k], hull[k + 1], q)
    {
      assert OnOrLeft(hull[..][k], hull[..][k + 1], q);
    }
  }

  /** What the hull of the scanned points says about the picture. */
  lemma HullOfScan(picture: Picture, vertices: seq<Point>, hull: seq<Point>, turn: nat)
    requires StrictlySorted(vertices) && forall q :: q in vertices <==> Scanned(picture, q)
    requires if vertices == [] then hull == [] else IsHull(vertices, hull, turn)
    ensures forall p :: p in hull ==> Scanned(picture, p)
    ensures forall q, k :: Scanned(picture, q) && 0 <= k < |hull| - 1 ==> OnOrLeft(hull[k], hull[k + 1], q)
    ensures forall q :: Scanned(picture, q) ==> |hull| > 0 && hull[0] == hull[|hull| - 1] && (q == hull[0] || Before(hull[0], q))
    ensures hull != [] ==> TwoArcs(hull, turn)
  {
    hide Scanned, OnOrLeft, TurnsStrictlyLeft;
    forall p | p in hull ensures p in vertices {
      assert p in Members(hull);
    }
    forall q | q in vertices ensures q in Members(vertices) && (q == vertices[0] || Before(vertices[0], q)) {
      var i :| 0 <= i < |vertices| && vertices[i] == q;
    }
  }

}
