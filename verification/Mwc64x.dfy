/** The MWC64X generator of the OpenCL noise kernel and its jump-ahead
    (lib/ImageMagick/MagickCore/accelerate-kernels-private.h).  `ulong` and
    `uint` arithmetic wraps at 2^64 and 2^32; the conversion to single precision
    is a parameter that is only known to be monotone. */
module Mwc64x {
  import opened Basics

  const TWO63: int := 0x8000_0000_0000_0000

  type uint = n: int | 0 <= n < TWO32
  type ulong = n: int | 0 <= n < TWO64

  ghost predicate Monotone(toFloat: ulong -> real) {
    forall u, v :: u <= v ==> toFloat(u) <= toFloat(v)
  }

  // ----- Facts about remainders -----

  lemma RemainderUnique(n: int, q: int, r: int, m: int)
    requires 0 <= r < m && n == q * m + r
    ensures n % m == r && n / m == q
  {
    var d := n / m - q;
    assert d * m == r - n % m;
    NoMultipleBetween(d, m);
  }

  lemma NoMultipleBetween(d: int, m: int)
    requires -m < d * m < m
    ensures d == 0
  {
  }

  lemma SameRemainder(n: int, k: int, m: int)
    requires m > 0
    ensures (n + k * m) % m == n % m
  {
    assert n + k * m == (n / m + k) * m + n % m;
    RemainderUnique(n + k * m, n / m + k, n % m, m);
  }

  lemma RemainderOfSum(a: int, b: int, m: int)
    requires m > 0
    ensures (a % m + b) % m == (a + b) % m
  {
    assert a + b == (a % m + b) + (a / m) * m;
    SameRemainder(a % m + b, a / m, m);
  }

  lemma RemainderOfProduct(a: int, b: int, m: int)
    requires m > 0
    ensures ((a % m) * b) % m == (a * b) % m
  {
    assert a * b == (a % m) * b + ((a / m) * b) * m by {
      assert a == (a / m) * m + a % m;
      calc {
        a * b;
        ((a / m) * m + a % m) * b;
        ((a / m) * m) * b + (a % m) * b;
        ((a / m) * b) * m + (a % m) * b;
      }
    }
    SameRemainder((a % m) * b, (a / m) * b, m);
  }

  // ----- Modular addition -----

  function AddMod64(toFloat: ulong -> real, a: ulong, b: ulong, m: ulong): ulong {
    var v: ulong := (a + b) % TWO64;
    if v >= m || toFloat(v) < toFloat(a) then (v - m) % TWO64 else v
  }

  /** The comparison in single precision misses some overflows: the comment's
      postcondition holds exactly when the sum does not wrap or rounding keeps
      the wrapped sum visibly smaller. */
  lemma AddModExact(toFloat: ulong -> real, a: ulong, b: ulong, m: ulong)
    requires Monotone(toFloat) && a < m && b < m
    ensures AddMod64(toFloat, a, b, m) == (a + b) % m <==>
            a + b < TWO64 || toFloat(a + b - TWO64) < toFloat(a)
  {
    RemainderOfTwo(a, b, m);
    AddModValue(toFloat, a, b, m);
    hide AddMod64;
  }

  lemma RemainderOfTwo(a: nat, b: nat, m: nat)
    requires a < m && b < m
    ensures (a + b) % m == if a + b < m then a + b else a + b - m
  {
    if a + b < m { RemainderUnique(a + b, 0, a + b, m); } else { RemainderUnique(a + b, 1, a + b - m, m); }
  }

  lemma AddModValue(toFloat: ulong -> real, a: ulong, b: ulong, m: ulong)
    ensures var v := if a + b < TWO64 then a + b else a + b - TWO64;
            AddMod64(toFloat, a, b, m) ==
            if v >= m then v - m else if toFloat(v) < toFloat(a) then v - m + TWO64 else v
  {
  }

  /** A modulus of more than 63 bits for which the addition is wrong, whenever
      single precision cannot tell 2^64-4 from 2^64-2. */
  lemma AddModCanFail(toFloat: ulong -> real)
    requires toFloat(TWO64 - 4) == toFloat(TWO64 - 2)
    ensures AddMod64(toFloat, TWO64 - 2, TWO64 - 2, TWO64 - 1) != (2 * (TWO64 - 2)) % (TWO64 - 1)
  {
  }

  lemma AddModCorrect(toFloat: ulong -> real, a: ulong, b: ulong, m: ulong)
    requires Monotone(toFloat) && a < m <= TWO63 && b < m
    ensures AddMod64(toFloat, a, b, m) == (a + b) % m
  {
    AddModExact(toFloat, a, b, m);
  }

  // ----- Modular multiplication and power -----

  lemma HalvedProduct(h: nat, b: nat)
    ensures (2 * h) * b == h * (b + b) && (2 * h + 1) * b == h * (b + b) + b
  {
  }

  /** What the double-and-add loop keeps: r + a*b modulo m. */
  ghost function Outstanding(r: nat, a: nat, b: nat, m: nat): int
    requires m > 0
  {
    (r + a * b) % m
  }

  lemma DoubleAndAdd(r: nat, a: nat, b: nat, m: nat, r': nat, b': nat)
    requires m > 0 && r' == (if a % 2 == 1 then (r + b) % m else r) && b' == (b + b) % m
    ensures Outstanding(r', a / 2, b', m) == Outstanding(r, a, b, m)
  {
    var h := a / 2;
    HalvedProduct(h, b);
    if a % 2 == 1 {
      assert a == 2 * h + 1;
      OddRound(h, b, r, m, h * (b + b), h * ((b + b) % m));
    } else {
      assert a == 2 * h;
      AddScaled(r, h, b + b, m, h * (b + b), h * ((b + b) % m));
    }
  }

  lemma OutstandingEnds(r: nat, b: nat, x: nat, m: nat)
    requires r < m
    ensures Outstanding(r, 0, b, m) == r && Outstanding(0, x, b, m) == (x * b) % m
  {
    RemainderUnique(r, 0, r, m);
    assert 0 * b == 0;
  }

  lemma OddRound(h: nat, b: nat, r: nat, m: nat, x: nat, y: nat)
    requires m > 0 && x == h * (b + b) && y == h * ((b + b) % m)
    ensures ((r + b) % m + y) % m == (r + (x + b)) % m
  {
    AddScaled(r + b, h, b + b, m, x, y);
    RemainderOfSum(r + b, y, m);
  }

  lemma AddScaled(r: nat, h: nat, d: nat, m: nat, x: nat, y: nat)
    requires m > 0 && x == h * d && y == h * (d % m)
    ensures (r + y) % m == (r + x) % m
  {
    assert x % m == y % m by {
      RemainderOfProduct(d, h, m);
      assert x == d * h && y == (d % m) * h;
    }
    SameSum(r, x, y, m);
  }

  lemma SameSum(r: nat, x: nat, y: nat, m: nat)
    requires m > 0 && x % m == y % m
    ensures (r + y) % m == (r + x) % m
  {
    RemainderOfSum(x, r, m);
    RemainderOfSum(y, r, m);
  }

  method MulMod64(toFloat: ulong -> real, x: ulong, y: ulong, m: ulong) returns (r: ulong)
    requires Monotone(toFloat)
    requires 0 < m <= TWO63 && y < m
    ensures r == (x * y) % m
  {
    hide Outstanding, AddMod64;
    r := 0;
    var a: ulong, b: ulong := x, y;
    OutstandingEnds(0, y, x, m);
    while a != 0
      invariant r < m && b < m
      invariant Outstanding(r, a, b, m) == (x * y) % m
    {
      ghost var r0, b0 := r, b;
      if a % 2 == 1 {
        AddModCorrect(toFloat, r, b, m);
        r := AddMod64(toFloat, r, b, m);
      }
      AddModCorrect(toFloat, b, b, m);
      b := AddMod64(toFloat, b, b, m);
      DoubleAndAdd(r0, a, b0, m, r, b);
      a := a / 2;
    }
    OutstandingEnds(r, b, 0, m);
  }

  ghost function Pow(a: int, e: nat): int {
    if e == 0 then 1 else a * Pow(a, e - 1)
  }

  lemma {:induction false} PowRemainder(a: int, e: nat, m: nat)
    requires m > 0
    ensures Pow(a % m, e) % m == Pow(a, e) % m
  {
    RemainderTwice(a, m);
    if e > 0 {
      PowRemainder(a, e - 1, m);
      SameProduct(a % m, a, Pow(a % m, e - 1), Pow(a, e - 1), m);
    }
  }

  lemma RemainderTwice(a: int, m: nat)
    requires m > 0
    ensures (a % m) % m == a % m
  {
  }

  /** Factors with the same remainders have products with the same remainder. */
  lemma SameProduct(a: int, b: int, p: int, q: int, m: nat)
    requires m > 0 && a % m == b % m && p % m == q % m
    ensures (a * p) % m == (b * q) % m
  {
    var r, t := b % m, q % m;
    RemainderOfProduct(a, p, m);
    RemainderOfProduct(b, q, m);
    ScaledRemainder(r, p, t, m);
    ScaledRemainder(r, q, t, m);
  }

  lemma ScaledRemainder(r: int, p: int, t: int, m: nat)
    requires m > 0 && t == p % m
    ensures (r * p) % m == (r * t) % m
  {
    RemainderOfProduct(p, r, m);
    assert p * r == r * p && t * r == r * t;
  }

  lemma {:induction false} PowOfSquare(a: int, h: nat)
    ensures Pow(a, 2 * h) == Pow(a * a, h)
  {
    if h > 0 {
      PowOfSquare(a, h - 1);
      calc {
        Pow(a, 2 * h);
        a * Pow(a, 2 * h - 1);
        a * (a * Pow(a, 2 * h - 2));
        (a * a) * Pow(a, 2 * (h - 1));
      }
    }
  }

  /** What one round of square-and-multiply keeps: acc * sqr^e modulo m. */
  lemma SquareAndMultiply(acc: nat, sqr: nat, e: nat, m: nat)
    requires m > 0
    ensures ((if e % 2 == 1 then (acc * sqr) % m else acc) * Pow((sqr * sqr) % m, e / 2)) % m == (acc * Pow(sqr, e)) % m
  {
    var h := e / 2;
    var p, q := Pow((sqr * sqr) % m, h), Pow(sqr * sqr, h);
    var front := if e % 2 == 1 then acc * sqr else acc;
    PowOfSquare(sqr, h);
    calc {
      (front * p) % m;
      { RemainderOfProduct(p, front, m); }
      ((p % m) * front) % m;
      { PowRemainder(sqr * sqr, h, m); }
      ((q % m) * front) % m;
      { RemainderOfProduct(q, front, m); }
      (q * front) % m;
    }
    assert acc * Pow(sqr, e) == q * front by {
      if e % 2 == 1 {
        assert acc * (sqr * q) == q * (acc * sqr) by { assert acc * (sqr * q) == (acc * sqr) * q; }
      }
    }
    if e % 2 == 1 { RemainderOfProduct(acc * sqr, p, m); }
  }

  method PowMod64(toFloat: ulong -> real, a: ulong, exponent: ulong, m: ulong) returns (acc: ulong)
    requires Monotone(toFloat)
    requires 1 < m <= TWO63 && a < m
    ensures acc == Pow(a, exponent) % m
  {
    var sqr: ulong := a;
    acc := 1;
    var e: ulong := exponent;
    while e != 0
      invariant sqr < m && acc < m
      invariant (acc * Pow(sqr, e)) % m == Pow(a, exponent) % m
    {
      SquareAndMultiply(acc, sqr, e, m);
      if e % 2 == 1 {
        acc := MulMod64(toFloat, acc, sqr, m);
      }
      sqr := MulMod64(toFloat, sqr, sqr, m);
      e := e / 2;
    }
    RemainderUnique(acc, 0, acc, m);
  }

  // ----- The generator -----

  datatype State = State(x: uint, c: uint)

  /** The number whose multiplication by A advances the generator. */
  function Value(A: uint, s: State): nat {
    s.x * A + s.c
  }

  function Advance(A: uint, s: State): State {
    var xn: uint := (A * s.x + s.c) % TWO32;
    var carry := if xn < s.c then 1 else 0;
    State(xn, (A * s.x / TWO32 + carry) % TWO32)
  }

  ghost function AdvanceBy(A: uint, s: State, distance: nat): State {
    if distance == 0 then s else Advance(A, AdvanceBy(A, s, distance - 1))
  }

  ghost function SkipTo(A: uint, m: ulong, s: State, distance: nat): State
    requires A > 0 && m > 0
  {
    var v := (Value(A, s) % TWO64) * (Pow(A, distance) % m) % m;
    State((v / A) % TWO32, v % A)
  }

  // ----- Skipping is stepping -----

  /** The modulus that belongs to the multiplier A. */
  function Modulus(A: uint): int {
    A * TWO32 - 1
  }

  lemma ProductBound(a: nat, x: nat, bound: nat)
    requires x <= bound
    ensures a * x <= a * bound
  {
  }

  /** The carry out of the low half is what the comparison detects. */
  lemma CarryOut(p: nat, c: uint)
    requires p <= (TWO32 - 1) * (TWO32 - 1)
    ensures var xn := (p + c) % TWO32;
            (p / TWO32 + (if xn < c then 1 else 0)) % TWO32 == (p + c) / TWO32
  {
  }

  /** One step is a 64-bit multiply-with-carry: the low and the high half of A*x + c. */
  lemma AdvanceIsDivision(A: uint, s: State)
    ensures Value(A, s) / TWO32 < TWO32
    ensures Advance(A, s) == State(Value(A, s) % TWO32, Value(A, s) / TWO32)
  {
    ProductBound(A, s.x, TWO32 - 1);
    assert A * s.x == s.x * A <= (TWO32 - 1) * (TWO32 - 1);
    CarryOut(A * s.x, s.c);
  }

  lemma ValueBound(A: uint, s: State)
    requires A > 1 && s.c < A
    ensures Value(A, s) <= Modulus(A)
    ensures Value(A, s) == Modulus(A) <==> s == State(TWO32 - 1, A - 1)
    ensures Value(A, s) == 0 <==> s == State(0, 0)
  {
    if s.x < TWO32 - 1 { ProductBound(A, s.x, TWO32 - 2); }
    if s.x > 0 { ProductBound(A, 1, s.x); }
  }

  /** Neither of the two states that step to themselves. */
  ghost predicate Live(A: uint, s: State) {
    s.c < A && 0 < Value(A, s) < Modulus(A)
  }

  /** A step multiplies the value by A modulo A * 2^32 - 1. */
  lemma AdvanceMultiplies(A: uint, s: State)
    requires A > 1 && Live(A, s)
    ensures Live(A, Advance(A, s)) && Value(A, Advance(A, s)) == (A * Value(A, s)) % Modulus(A)
  {
    AdvanceIsDivision(A, s);
    var t, s' := Value(A, s), Advance(A, s);
    hide Value, Advance;
    assert t == s'.c * TWO32 + s'.x;
    assert s'.c < A && s' != State(TWO32 - 1, A - 1) && s' != State(0, 0);
    ValueBound(A, s');
    MultiplyAndSplit(A, s');
    RemainderUnique(A * t, s'.c, Value(A, s'), Modulus(A));
  }

  lemma MultiplyAndSplit(A: uint, s: State)
    ensures A * (s.c * TWO32 + s.x) == s.c * Modulus(A) + Value(A, s)
  {
    assert A * (s.c * TWO32) == s.c * (A * TWO32);
  }

  lemma {:induction false} AdvanceByMultiplies(A: uint, s: State, distance: nat)
    requires A > 1 && Live(A, s)
    ensures Live(A, AdvanceBy(A, s, distance))
    ensures Value(A, AdvanceBy(A, s, distance)) == (Value(A, s) * Pow(A, distance)) % Modulus(A)
  {
    hide Value, Advance;
    var v, m := Value(A, s), Modulus(A);
    if distance == 0 {
      RemainderUnique(v, 0, v, m);
    } else {
      AdvanceByMultiplies(A, s, distance - 1);
      var s', p := AdvanceBy(A, s, distance - 1), Pow(A, distance - 1);
      AdvanceMultiplies(A, s');
      OneMoreFactor(A, v, p, m);
    }
  }

  lemma OneMoreFactor(a: nat, v: nat, p: int, m: nat)
    requires m > 0
    ensures (a * ((v * p) % m)) % m == (v * (a * p)) % m
  {
    RemainderOfProduct(v * p, a, m);
    assert (v * p) * a == v * (a * p);
  }

  lemma {:induction false} StuckStates(A: uint, s: State, distance: nat)
    requires A > 1 && s.c < A && !Live(A, s)
    ensures s == State(0, 0) || s == State(TWO32 - 1, A - 1)
    ensures AdvanceBy(A, s, distance) == s
  {
    ValueBound(A, s);
    AdvanceIsDivision(A, s);
    hide Value, Advance;
    assert Modulus(A) % TWO32 == TWO32 - 1 && Modulus(A) / TWO32 == A - 1;
    if distance > 0 { StuckStates(A, s, distance - 1); }
  }

  /** Skipping reaches the state that `distance` steps reach, for every state
      with c < A except the all-ones one, which steps to itself but which
      skipping sends to zero. */
  lemma SkipIsSteps(A: uint, s: State, distance: nat)
    requires 1 < A <= TWO63 / TWO32 && s.c < A
    ensures SkipTo(A, Modulus(A), s, distance) == AdvanceBy(A, s, distance) <==> s != State(TWO32 - 1, A - 1)
  {
    ValueBound(A, s);
    hide Advance, AdvanceBy, SkipTo;
    if Live(A, s) {
      SkipLive(A, s, distance);
    } else {
      hide Value;
      StuckStates(A, s, distance);
      SkipStuck(A, s, distance);
    }
  }

  lemma SkipLive(A: uint, s: State, distance: nat)
    requires 1 < A <= TWO63 / TWO32 && Live(A, s)
    ensures SkipTo(A, Modulus(A), s, distance) == AdvanceBy(A, s, distance)
  {
    AdvanceByMultiplies(A, s, distance);
    Recover(A, AdvanceBy(A, s, distance));
    hide Value, Advance, AdvanceBy, Pow;
    var v, p, m, t := Value(A, s), Pow(A, distance), Modulus(A), AdvanceBy(A, s, distance);
    RemainderUnique(v, 0, v, TWO64);
    RemainderOfFactor(v, p, m);
    assert SkipTo(A, m, s, distance) == State((Value(A, t) / A) % TWO32, Value(A, t) % A);
  }

  lemma Recover(A: uint, s: State)
    requires s.c < A
    ensures Value(A, s) / A == s.x && Value(A, s) % A == s.c && s.x % TWO32 == s.x
  {
    RemainderUnique(Value(A, s), s.x, s.c, A);
  }

  lemma SkipStuck(A: uint, s: State, distance: nat)
    requires 1 < A <= TWO63 / TWO32 && s.c < A
    requires Value(A, s) == 0 || Value(A, s) == Modulus(A)
    ensures SkipTo(A, Modulus(A), s, distance) == State(0, 0)
  {
    var v, m := Value(A, s), Modulus(A);
    hide Value, Pow;
    var p := Pow(A, distance) % m;
    RemainderUnique(v, 0, v, TWO64);
    RemainderUnique(v * p, if v == 0 then 0 else p, 0, m);
  }

  lemma RemainderOfFactor(v: nat, p: int, m: nat)
    requires m > 0
    ensures (v * (p % m)) % m == (v * p) % m
  {
    RemainderOfProduct(p, v, m);
    assert v * (p % m) == (p % m) * v && p * v == v * p;
  }

  class Generator {
    var x: uint
    var c: uint
    const seed0: uint
    const seed1: ulong

    constructor (x: uint, c: uint, seed0: uint, seed1: ulong)
      ensures this.x == x && this.c == c && this.seed0 == seed0 && this.seed1 == seed1
    {
      this.x, this.c, this.seed0, this.seed1 := x, c, seed0, seed1;
    }

    function Current(): State
      reads this
    {
      State(x, c)
    }

    method Step()
      modifies this
      ensures Current() == Advance(seed0, old(Current()))
    {
      var X, C := x, c;
      var Xn: uint := (seed0 * X + C) % TWO32;
      var carry := if Xn < C then 1 else 0;
      var Cn: uint := (seed0 * X / TWO32 + carry) % TWO32;
      x, c := Xn, Cn;
    }

    method Skip(toFloat: ulong -> real, distance: ulong)
      requires Monotone(toFloat)
      requires 0 < seed0 < seed1 && 1 < seed1 <= TWO63
      modifies this
      ensures Current() == SkipTo(seed0, seed1, old(Current()), distance)
    {
      var m := PowMod64(toFloat, seed0, distance, seed1);
      var v: ulong := (x * seed0 + c) % TWO64;
      v := MulMod64(toFloat, v, m, seed1);
      assert v % seed0 < seed0;
      x, c := (v / seed0) % TWO32, v % seed0;
    }
  }
}
