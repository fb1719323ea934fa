/** Scaling a size into a box (src/model/Rect.cpp), in exact arithmetic: a
    `double` is a real number here. */
module AspectFit {

  datatype Size = Size(width: nat, height: nat)

  function Min(a: real, b: real): real {
    if b < a then b else a
  }

  function Fit(s: Size, box: Size): Size
    requires s.width > 0 && s.height > 0
  {
    var scale := Min(box.width as real / s.width as real, box.height as real / s.height as real);
    assert s.width as real * scale >= 0.0 && s.height as real * scale >= 0.0;
    Size((s.width as real * scale).Floor, (s.height as real * scale).Floor)
  }

  lemma FloorOfQuotient(n: nat, d: nat)
    requires d > 0
    ensures (n as real / d as real).Floor == n / d
  {
    var q, r := n / d, n % d;
    assert n as real == q as real * d as real + r as real;
    assert n as real / d as real == q as real + r as real / d as real;
    assert 0.0 <= r as real / d as real < 1.0;
  }

  lemma QuotientOrder(a: nat, b: nat, c: nat, d: nat)
    requires b > 0 && d > 0
    ensures a as real / b as real <= c as real / d as real <==> a * d <= c * b
  {
    var x, y := a as real / b as real, c as real / d as real;
    assert x * b as real == a as real && y * d as real == c as real;
    var k := b as real * d as real;
    assert x * k == (a * d) as real;
    assert y * k == (c * b) as real;
    if x <= y { assert x * k <= y * k; } else { assert x * k > y * k; }
  }

  lemma ScaledSide(side: nat, n: nat, d: nat)
    requires d > 0
    ensures (side as real * (n as real / d as real)).Floor == side * n / d
  {
    assert side as real * (n as real / d as real) == (side * n) as real / d as real;
    FloorOfQuotient(side * n, d);
  }

  lemma OwnSide(n: nat, d: nat)
    requires d > 0
    ensures d * n / d == n
  {
    var q := d * n / d;
    assert (q - n) * d == -((d * n) % d);
    OnlyZero(q - n, d);
  }

  lemma OnlyZero(k: int, d: int)
    requires -d < k * d <= 0
    ensures k == 0
  {
  }

  /** The result in integer arithmetic: the dimension that binds takes the whole
      side of the box, the other one is the true length cut off below the unit. */
  lemma FitInIntegers(s: Size, box: Size)
    requires s.width > 0 && s.height > 0
    ensures Fit(s, box) ==
            if box.width * s.height <= box.height * s.width then Size(box.width, s.height * box.width / s.width)
            else Size(s.width * box.height / s.height, box.height)
  {
    QuotientOrder(box.width, s.width, box.height, s.height);
    ScaledSide(s.width, box.width, s.width);
    ScaledSide(s.height, box.width, s.width);
    ScaledSide(s.width, box.height, s.height);
    ScaledSide(s.height, box.height, s.height);
    OwnSide(box.width, s.width);
    OwnSide(box.height, s.height);
  }

  /** As wide as the box, no taller than it, and less than a unit lower than the true
      ratio demands. */
  ghost predicate FillsAcross(s: Size, box: Size, r: Size) {
    && r.width == box.width && r.height <= box.height
    && r.height * s.width <= s.height * box.width < (r.height + 1) * s.width
  }

  ghost predicate FillsDown(s: Size, box: Size, r: Size) {
    && r.height == box.height && r.width <= box.width
    && r.width * s.height <= s.width * box.height < (r.width + 1) * s.height
  }

  /** The result never leaves the box, fills it in one dimension, and in the
      other one is less than a unit short of the true ratio. */
  lemma FitsTheBox(s: Size, box: Size)
    requires s.width > 0 && s.height > 0
    ensures FillsAcross(s, box, Fit(s, box)) || FillsDown(s, box, Fit(s, box))
  {
    hide Fit, FillsAcross, FillsDown;
    FitInIntegers(s, box);
    if box.width * s.height <= box.height * s.width { Across(s, box); } else { Down(s, box); }
  }

  lemma Across(s: Size, box: Size)
    requires s.width > 0 && box.width * s.height <= box.height * s.width
    ensures FillsAcross(s, box, Size(box.width, s.height * box.width / s.width))
  {
    Swapped(box.width, s.height);
    CutOff(s.height * box.width, s.width, box.height);
  }

  lemma Down(s: Size, box: Size)
    requires s.height > 0 && box.height * s.width <= box.width * s.height
    ensures FillsDown(s, box, Size(s.width * box.height / s.height, box.height))
  {
    Swapped(box.height, s.width);
    CutOff(s.width * box.height, s.height, box.width);
  }

  lemma Swapped(a: nat, b: nat)
    ensures a * b == b * a
  {
  }

  lemma CutOff(n: nat, d: nat, bound: nat)
    requires d > 0 && n <= bound * d
    ensures n / d <= bound && (n / d) * d <= n < (n / d + 1) * d
  {
    var q := n / d;
    assert n == q * d + n % d;
    assert (q - bound) * d <= 0;
    NotPositive(q - bound, d);
  }

  lemma NotPositive(k: int, d: int)
    requires d > 0 && k * d <= 0
    ensures k <= 0
  {
  }

  /** A sheet of m times W x H scaled to k times W x H has exactly that size, so
      the two smaller sprite sheets have the sizes their keys record. */
  lemma SheetScalesExactly(W: nat, H: nat, m: nat, k: nat)
    requires W > 0 && H > 0 && m > 0
    ensures m * W > 0 && m * H > 0
    ensures Fit(Size(m * W, m * H), Size(k * W, k * H)) == Size(k * W, k * H)
  {
    Positive(m, W);
    Positive(m, H);
    var s, box := Size(m * W, m * H), Size(k * W, k * H);
    assert box.width * s.height == box.height * s.width by { Exchange(k, W, m, H); }
    FitInIntegers(s, box);
    hide Fit;
    assert s.height * box.width == s.width * box.height by { Exchange(m, H, k, W); }
    OwnSide(box.height, s.width);
  }

  lemma Positive(a: nat, b: nat)
    requires a > 0 && b > 0
    ensures a * b > 0
  {
  }

  lemma Exchange(a: nat, b: nat, c: nat, d: nat)
    ensures (a * b) * (c * d) == (a * d) * (c * b)
  {
  }
}
