/** The 95% Wilson lower bound over exact reals. */
module Wilson {
  const Z: real := 1.96

  /** `root` is the square root on non-negative reals. */
  ghost predicate IsSqrt(root: real -> real) {
    forall x: real :: x >= 0.0 ==> root(x) >= 0.0 && root(x) * root(x) == x
  }

  function Clamp(x: real): real {
    if x < 0.0 then 0.0 else if x > 1.0 then 1.0 else x
  }

  function Centre(p: real, n: real): real
    requires n > 0.0
  {
    p + Z * Z / (2.0 * n)
  }

  function Margin(p: real, n: real, root: real -> real): real
    requires n > 0.0
  {
    Z * root((p * (1.0 - p) + Z * Z / (4.0 * n)) / n)
  }

  /** The bound before the program's `.max(0.0)`. */
  function Unclamped(p: real, n: real, root: real -> real): real
    requires n > 0.0
  {
    (Centre(p, n) - Margin(p, n, root)) / (1.0 + Z * Z / n)
  }

  function WilsonLowerBound(successes: real, n: real, root: real -> real): real {
    if n <= 0.0 then 0.0
    else
      var x := Unclamped(Clamp(successes / n), n, root);
      if x < 0.0 then 0.0 else x
  }

  // ----- The quadratic -----

  /** `k` stands for z^2/n: x solves (p - x)^2 = k x (1 - x). */
  predicate Solves(p: real, k: real, x: real) {
    (p - x) * (p - x) == k * (x * (1.0 - x))
  }

  /** The least solution, and it lies between 0 and p. */
  ghost predicate LeastRoot(p: real, k: real, x: real) {
    && Solves(p, k, x)
    && 0.0 <= x <= p
    && (forall y :: Solves(p, k, y) ==> x <= y)
  }

  lemma ProductPositive(a: real, b: real)
    requires a > 0.0 && b > 0.0
    ensures a * b > 0.0
  {
  }

  lemma SquareOrder(a: real, b: real)
    requires b >= 0.0 && a * a <= b * b
    ensures -b <= a <= b
  {
    assert (a - b) * (a + b) == a * a - b * b;
    assert (b - a) * (-a - b) == a * a - b * b;
    if a > b {
      ProductPositive(a - b, a + b);
    }
    if a < -b {
      ProductPositive(b - a, -a - b);
    }
  }

  /** (1+k) times the equation's two sides, completed to a square. */
  lemma CompleteSquare(p: real, k: real, m: real, y: real)
    requires m * m == k * (p * (1.0 - p)) + k * k / 4.0
    ensures ((1.0 + k) * y - (p + k / 2.0)) * ((1.0 + k) * y - (p + k / 2.0)) - m * m
            == (1.0 + k) * ((p - y) * (p - y) - k * (y * (1.0 - y)))
  {
  }

  lemma SignOfProduct(a: real, b: real)
    requires a > 0.0
    ensures a * b == 0.0 ==> b == 0.0
    ensures a * b <= 0.0 ==> b <= 0.0
    ensures b <= 0.0 ==> a * b <= 0.0
  {
  }

  lemma MulNonNegative(a: real, b: real)
    requires a >= 0.0 && b >= 0.0
    ensures a * b >= 0.0
  {
  }

  lemma RootIsLeast(p: real, k: real, m: real, x: real, y: real)
    requires k > 0.0 && m >= 0.0
    requires m * m == k * (p * (1.0 - p)) + k * k / 4.0
    requires (1.0 + k) * x == p + k / 2.0 - m
    requires Solves(p, k, y)
    ensures x <= y
  {
    CompleteSquare(p, k, m, y);
    SquareOrder((1.0 + k) * y - (p + k / 2.0), m);
    assert (1.0 + k) * (x - y) == (1.0 + k) * x - (1.0 + k) * y;
    SignOfProduct(1.0 + k, x - y);
  }

  lemma RootSolves(p: real, k: real, m: real, x: real)
    requires k > 0.0
    requires m * m == k * (p * (1.0 - p)) + k * k / 4.0
    requires (1.0 + k) * x == p + k / 2.0 - m
    ensures Solves(p, k, x)
  {
    CompleteSquare(p, k, m, x);
    assert (1.0 + k) * x - (p + k / 2.0) == -m;
    SignOfProduct(1.0 + k, (p - x) * (p - x) - k * (x * (1.0 - x)));
  }

  /** The margin is at most the centre. */
  lemma RootIsNotNegative(p: real, k: real, m: real, x: real)
    requires 0.0 <= p <= 1.0 && k > 0.0 && m >= 0.0
    requires m * m == k * (p * (1.0 - p)) + k * k / 4.0
    requires (1.0 + k) * x == p + k / 2.0 - m
    ensures 0.0 <= x
  {
    var c := p + k / 2.0;
    assert c * c - m * m == (1.0 + k) * (p * p);
    MulNonNegative(p, p);
    MulNonNegative(1.0 + k, p * p);
    SquareOrder(m, c);
    assert (1.0 + k) * (-x) == -((1.0 + k) * x);
    SignOfProduct(1.0 + k, -x);
  }

  /** The margin covers the distance from the centre to (1+k) p. */
  lemma RootIsBelowRate(p: real, k: real, m: real, x: real)
    requires 0.0 <= p <= 1.0 && k > 0.0 && m >= 0.0
    requires m * m == k * (p * (1.0 - p)) + k * k / 4.0
    requires (1.0 + k) * x == p + k / 2.0 - m
    ensures x <= p
  {
    var g := k / 2.0 - p * k;
    assert m * m - g * g == (1.0 + k) * (k * (p * (1.0 - p)));
    MulNonNegative(p, 1.0 - p);
    MulNonNegative(k, p * (1.0 - p));
    MulNonNegative(1.0 + k, k * (p * (1.0 - p)));
    SquareOrder(g, m);
    assert (1.0 + k) * (x - p) == g - m;
    SignOfProduct(1.0 + k, x - p);
  }

  /** The smaller root of the completed square is the least solution. */
  lemma SmallerRoot(p: real, k: real, m: real, x: real)
    requires 0.0 <= p <= 1.0 && k > 0.0 && m >= 0.0
    requires m * m == k * (p * (1.0 - p)) + k * k / 4.0
    requires (1.0 + k) * x == p + k / 2.0 - m
    ensures LeastRoot(p, k, x)
  {
    RootSolves(p, k, m, x);
    RootIsNotNegative(p, k, m, x);
    RootIsBelowRate(p, k, m, x);
    forall y | Solves(p, k, y) ensures x <= y {
      RootIsLeast(p, k, m, x, y);
    }
  }

  // ----- The program's formula -----

  lemma MarginSquared(p: real, n: real, root: real -> real)
    requires IsSqrt(root) && n > 0.0 && 0.0 <= p <= 1.0
    ensures var m, k := Margin(p, n, root), Z * Z / n;
            m >= 0.0 && m * m == k * (p * (1.0 - p)) + k * k / 4.0
  {
    var k := Z * Z / n;
    MulNonNegative(p, 1.0 - p);
    var r := p * (1.0 - p) + Z * Z / (4.0 * n);
    assert Z * Z / (4.0 * n) == k / 4.0;
    var q := r / n;
    assert q >= 0.0;
    var y := root(q);
    assert y * y == q;
    var m := Margin(p, n, root);
    assert m * m == (Z * y) * (Z * y) == (Z * Z) * (y * y) == (Z * Z) * q;
    assert (Z * Z) * (r / n) == k * r;
  }

  /** The score in terms of the quadratic: p = s/n, k = z^2/n and the margin m. */
  lemma Quadratic(s: real, n: real, root: real -> real) returns (p: real, k: real, m: real)
    requires IsSqrt(root) && 0.0 <= s <= n && n > 0.0
    ensures p == s / n && k == Z * Z / n && n * p == s && n * k == Z * Z
    ensures IsMargin(p, k, m)
    ensures (1.0 + k) * Unclamped(p, n, root) == p + k / 2.0 - m
    ensures Clamp(p) == p
  {
    p, k, m := s / n, Z * Z / n, Margin(s / n, n, root);
    assert 0.0 <= p <= 1.0;
    assert k > 0.0;
    MarginSquared(p, n, root);
    assert Z * Z / (2.0 * n) == k / 2.0;
  }

  predicate IsMargin(p: real, k: real, m: real) {
    0.0 <= p <= 1.0 && k > 0.0 && m >= 0.0 && m * m == k * (p * (1.0 - p)) + k * k / 4.0
  }

  /** The score is the least x with n (p - x)^2 = z^2 x (1 - x); it lies in [0, p], so the
      clamp at zero never changes it. */
  lemma WilsonIsLeastRoot(successes: real, n: real, root: real -> real)
    requires IsSqrt(root) && 0.0 <= successes <= n && n > 0.0
    ensures var p, x := successes / n, WilsonLowerBound(successes, n, root);
            LeastRoot(p, Z * Z / n, x) && x == Unclamped(p, n, root)
  {
    var p, k, m := Quadratic(successes, n, root);
    SmallerRoot(p, k, m, Unclamped(p, n, root));
  }

  /** The score as the smaller root, with no division left. */
  lemma ScoreIsSmallerRoot(s: real, n: real, root: real -> real) returns (p: real, k: real, m: real, x: real)
    requires IsSqrt(root) && 0.0 <= s <= n && n > 0.0
    ensures x == WilsonLowerBound(s, n, root)
    ensures IsMargin(p, k, m) && (1.0 + k) * x == p + k / 2.0 - m
    ensures n * p == s && n * k == Z * Z
  {
    WilsonIsLeastRoot(s, n, root);
    p, k, m := Quadratic(s, n, root);
    x := Unclamped(p, n, root);
  }

  // ----- Monotonicity -----

  /** (s - n x)^2 - z^2 n x (1 - x): zero exactly at the solutions for s successes of n. */
  function Excess(s: real, n: real, x: real): real {
    (s - n * x) * (s - n * x) - Z * Z * (n * (x * (1.0 - x)))
  }

  lemma ExcessScales(s: real, n: real, p: real, k: real, x: real)
    requires n * p == s && n * k == Z * Z
    ensures Excess(s, n, x) == n * (n * ((p - x) * (p - x) - k * (x * (1.0 - x))))
  {
    var d, q := p - x, x * (1.0 - x);
    assert s - n * x == n * d;
    assert (n * d) * (n * d) == n * (n * (d * d));
    assert n * (n * (k * q)) == (n * k) * (n * q);
    assert n * (d * d - k * q) == n * (d * d) - n * (k * q);
    assert n * (n * (d * d) - n * (k * q)) == n * (n * (d * d)) - n * (n * (k * q));
  }

  /** The score never reaches 1, whatever the record. */
  lemma ScoreIsBelowOne(p: real, k: real, x: real)
    requires k > 0.0 && p <= 1.0 && LeastRoot(p, k, x)
    ensures x < 1.0
  {
    var y := 1.0 / (1.0 + k);
    assert y < 1.0 && (1.0 + k) * y == 1.0;
    assert 1.0 - y == k * y;
    if p == 1.0 {
      assert (1.0 - y) * (1.0 - y) == (k * y) * (1.0 - y) == k * (y * (1.0 - y));
      assert Solves(p, k, y);
    }
  }

  lemma LeastRootFacts(s: real, n: real, p: real, k: real, x: real)
    requires n > 0.0 && k > 0.0 && p <= 1.0 && LeastRoot(p, k, x)
    requires n * p == s && n * k == Z * Z
    ensures Excess(s, n, x) == 0.0 && 0.0 <= x < 1.0 && n * x <= s
  {
    ExcessScales(s, n, p, k, x);
    MulNonNegative(n, p - x);
    assert n * (p - x) == s - n * x;
    ScoreIsBelowOne(p, k, x);
  }

  /** The score as a number: a zero of the excess, at most the rate, below 1. */
  lemma ScoreSolves(s: real, n: real, root: real -> real) returns (x: real)
    requires IsSqrt(root) && 0.0 <= s <= n && n > 0.0
    ensures x == WilsonLowerBound(s, n, root)
    ensures Excess(s, n, x) == 0.0 && 0.0 <= x < 1.0 && n * x <= s
  {
    var p, k, m, r := ScoreIsSmallerRoot(s, n, root);
    x := r;
    SmallerRoot(p, k, m, x);
    LeastRootFacts(s, n, p, k, x);
  }

  lemma RightOfSmallerRoot(p: real, k: real, m: real, x: real, y: real)
    requires IsMargin(p, k, m) && (1.0 + k) * x == p + k / 2.0 - m
    requires (p - y) * (p - y) - k * (y * (1.0 - y)) <= 0.0
    ensures x <= y
  {
    CompleteSquare(p, k, m, y);
    SignOfProduct(1.0 + k, (p - y) * (p - y) - k * (y * (1.0 - y)));
    SquareOrder((1.0 + k) * y - (p + k / 2.0), m);
    assert (1.0 + k) * (x - y) == (1.0 + k) * x - (1.0 + k) * y;
    SignOfProduct(1.0 + k, x - y);
  }

  /** At the rate itself the excess is negative unless the rate is 0 or 1. */
  lemma DegenerateRate(p: real, k: real)
    requires 0.0 <= p < 1.0 && k > 0.0 && k * (p * (1.0 - p)) <= 0.0
    ensures p == 0.0
  {
    SignOfProduct(k, p * (1.0 - p));
    SignOfProduct(1.0 - p, p);
  }

  lemma RateIsBetweenRoots(p: real, k: real, m: real)
    requires IsMargin(p, k, m)
    ensures -m <= k / 2.0 - p * k <= m
  {
    var g := k / 2.0 - p * k;
    assert m * m - g * g == (1.0 + k) * (k * (p * (1.0 - p)));
    MulNonNegative(p, 1.0 - p);
    MulNonNegative(k, p * (1.0 - p));
    MulNonNegative(1.0 + k, k * (p * (1.0 - p)));
    SquareOrder(g, m);
  }

  /** Below 1, nothing at or left of the rate sits on the larger root. */
  lemma NotOnLargerRoot(p: real, k: real, m: real, y: real)
    requires IsMargin(p, k, m) && y <= p && y < 1.0
    requires (p - y) * (p - y) - k * (y * (1.0 - y)) >= 0.0
    ensures (1.0 + k) * y - (p + k / 2.0) < m
  {
    RateIsBetweenRoots(p, k, m);
    if y < p {
      LeftOfRate(p, k, m, y);
    } else {
      assert y == p && (p - y) * (p - y) == 0.0;
      DegenerateRate(p, k);
    }
  }

  lemma LeftOfRate(p: real, k: real, m: real, y: real)
    requires k > 0.0 && y < p && -m <= k / 2.0 - p * k
    ensures (1.0 + k) * y - (p + k / 2.0) < m
  {
    ProductPositive(1.0 + k, p - y);
    assert (1.0 + k) * (p - y) == -(k / 2.0 - p * k) - ((1.0 + k) * y - (p + k / 2.0));
  }

  lemma LeftOfSmallerRoot(p: real, k: real, m: real, x: real, y: real)
    requires IsMargin(p, k, m) && (1.0 + k) * x == p + k / 2.0 - m
    requires (p - y) * (p - y) - k * (y * (1.0 - y)) >= 0.0 && y <= p && y < 1.0
    ensures y <= x
  {
    var a := (1.0 + k) * y - (p + k / 2.0);
    CompleteSquare(p, k, m, y);
    MulNonNegative(1.0 + k, (p - y) * (p - y) - k * (y * (1.0 - y)));
    assert a * a >= m * m;
    assert (m - a) * (m + a) == m * m - a * a;
    NotOnLargerRoot(p, k, m, y);
    if a > -m {
      ProductPositive(m - a, m + a);
    }
    assert (1.0 + k) * (y - x) == a + m;
    SignOfProduct(1.0 + k, y - x);
  }

  lemma SignScales(n: real, g: real)
    requires n > 0.0
    ensures n * (n * g) <= 0.0 ==> g <= 0.0
    ensures n * (n * g) >= 0.0 ==> g >= 0.0
  {
    SignOfProduct(n, n * g);
    SignOfProduct(n, g);
    SignOfProduct(n, -(n * g));
    SignOfProduct(n, -g);
    assert n * (-g) == -(n * g) && n * (-(n * g)) == -(n * (n * g));
  }

  /** Where the excess is not positive the score has been reached. */
  lemma ReachedWhereNotPositive(s: real, n: real, root: real -> real, y: real)
    requires IsSqrt(root) && 0.0 <= s <= n && n > 0.0
    requires Excess(s, n, y) <= 0.0
    ensures WilsonLowerBound(s, n, root) <= y
  {
    var p, k, m, x := ScoreIsSmallerRoot(s, n, root);
    ReachedSmallerRoot(s, n, p, k, m, x, y);
  }

  lemma ReachedSmallerRoot(s: real, n: real, p: real, k: real, m: real, x: real, y: real)
    requires IsMargin(p, k, m) && (1.0 + k) * x == p + k / 2.0 - m
    requires n > 0.0 && n * p == s && n * k == Z * Z
    requires Excess(s, n, y) <= 0.0
    ensures x <= y
  {
    ExcessScales(s, n, p, k, y);
    SignScales(n, (p - y) * (p - y) - k * (y * (1.0 - y)));
    RightOfSmallerRoot(p, k, m, x, y);
  }

  lemma BelowRate(s: real, n: real, p: real, y: real)
    requires n > 0.0 && n * p == s && n * y <= s
    ensures y <= p
  {
    assert n * (y - p) == n * y - n * p;
    SignOfProduct(n, y - p);
  }

  /** Up to the success rate, where the excess is not negative the score is still ahead. */
  lemma AheadWhereNotNegative(s: real, n: real, root: real -> real, y: real)
    requires IsSqrt(root) && 0.0 <= s <= n && n > 0.0
    requires Excess(s, n, y) >= 0.0 && n * y <= s && y < 1.0
    ensures y <= WilsonLowerBound(s, n, root)
  {
    var p, k, m, x := ScoreIsSmallerRoot(s, n, root);
    AheadOfSmallerRoot(s, n, p, k, m, x, y);
  }

  lemma ExcessSign(s: real, n: real, p: real, k: real, y: real)
    requires n > 0.0 && n * p == s && n * k == Z * Z && Excess(s, n, y) >= 0.0
    ensures (p - y) * (p - y) - k * (y * (1.0 - y)) >= 0.0
  {
    ExcessScales(s, n, p, k, y);
    SignScales(n, (p - y) * (p - y) - k * (y * (1.0 - y)));
  }

  lemma AheadOfSmallerRoot(s: real, n: real, p: real, k: real, m: real, x: real, y: real)
    requires IsMargin(p, k, m) && (1.0 + k) * x == p + k / 2.0 - m
    requires n > 0.0 && n * p == s && n * k == Z * Z
    requires Excess(s, n, y) >= 0.0 && n * y <= s && y < 1.0
    ensures y <= x
  {
    ExcessSign(s, n, p, k, y);
    BelowRate(s, n, p, y);
    LeftOfSmallerRoot(p, k, m, x, y);
  }

  lemma SmallerSquare(a: real, b: real)
    requires 0.0 <= a <= b
    ensures a * a <= b * b
  {
  }

  lemma Grows(n: real, w: real, a: real)
    requires w > 0.0 && a >= 0.0
    ensures n * a <= (n + w) * a
  {
    MulNonNegative(w, a);
    assert (n + w) * a == n * a + w * a;
  }

  lemma FailureExcess(s: real, n: real, w: real, x: real)
    requires n > 0.0 && w > 0.0 && 0.0 <= x < 1.0
    requires Excess(s, n, x) == 0.0 && (n + w) * x < s
    ensures Excess(s, n + w, x) <= 0.0
  {
    MulNonNegative(x, 1.0 - x);
    Grows(n, w, x);
    Grows(n, w, x * (1.0 - x));
    SmallerSquare(s - (n + w) * x, s - n * x);
  }

  /** A failure of any weight never raises the score. */
  lemma FailureNeverRaises(s: real, n: real, w: real, root: real -> real)
    requires IsSqrt(root) && 0.0 <= s <= n && w > 0.0
    ensures WilsonLowerBound(s, n + w, root) <= WilsonLowerBound(s, n, root)
  {
    var n' := n + w;
    var x' := ScoreSolves(s, n', root);
    if n <= 0.0 {
      SignOfProduct(n', x');
    } else {
      var x := ScoreSolves(s, n, root);
      if n' * x < s {
        FailureExcess(s, n, w, x);
        ReachedWhereNotPositive(s, n', root, x);
      } else {
        assert n' * (x' - x) == n' * x' - n' * x;
        SignOfProduct(n', x' - x);
      }
    }
  }

  /** z^2 x is at most the distance from n x to the successes. */
  lemma SuccessMargin(s: real, n: real, x: real)
    requires n > 0.0 && s <= n && 0.0 <= x < 1.0 && n * x <= s && Excess(s, n, x) == 0.0
    ensures Z * Z * x <= s - n * x
  {
    var d, u := s - n * x, 1.0 - x;
    assert n * u == n - n * x;
    ProductPositive(n, u);
    MulNonNegative(d, n * u - d);
    assert d * (n * u - d) == d * (n * u) - d * d;
    assert Z * Z * (n * (x * u)) == (Z * Z * x) * (n * u);
    assert (n * u) * (Z * Z * x - d) == (Z * Z * x) * (n * u) - d * (n * u);
    SignOfProduct(n * u, Z * Z * x - d);
  }

  lemma SuccessExcess(s: real, n: real, w: real, x: real)
    requires n > 0.0 && s <= n && w > 0.0 && 0.0 <= x < 1.0
    requires Excess(s, n, x) == 0.0 && n * x <= s
    ensures Excess(s + w, n + w, x) >= 0.0 && (n + w) * x <= s + w
  {
    var d, u, v := s - n * x, 1.0 - x, w * (1.0 - x);
    SuccessMargin(s, n, x);
    MulNonNegative(w, u);
    assert (n + w) * x == n * x + w * x && v == w - w * x;
    assert (d + v) * (d + v) == d * d + v * (2.0 * d + v);
    assert (n + w) * (x * u) == n * (x * u) + x * v;
    assert Z * Z * ((n + w) * (x * u)) == Z * Z * (n * (x * u)) + v * (Z * Z * x);
    assert v * (2.0 * d + v - Z * Z * x) == v * (2.0 * d + v) - v * (Z * Z * x);
    MulNonNegative(v, 2.0 * d + v - Z * Z * x);
  }

  /** A success of any weight never lowers the score. */
  lemma SuccessNeverLowers(s: real, n: real, w: real, root: real -> real)
    requires IsSqrt(root) && 0.0 <= s <= n && w > 0.0
    ensures WilsonLowerBound(s, n, root) <= WilsonLowerBound(s + w, n + w, root)
  {
    var x' := ScoreSolves(s + w, n + w, root);
    if n > 0.0 {
      var x := ScoreSolves(s, n, root);
      SuccessExcess(s, n, w, x);
      AheadWhereNotNegative(s + w, n + w, root, x);
    }
  }

  // ----- Where the bound is a plain fraction -----

  lemma CancelFactor(n: real, x: real)
    requires n > 0.0 && 0.0 <= x < 1.0
    requires (n - n * x) * (n - n * x) == 3.8416 * n * (x * (1.0 - x))
    ensures n * (1.0 - x) == 3.8416 * x
  {
    var g := n * (1.0 - x);
    assert g == n - n * x;
    assert g * g == g * (3.8416 * x);
    SignOfProduct(n, 1.0 - x);
    CancelLeft(g, g, 3.8416 * x);
  }

  lemma CancelLeft(g: real, a: real, b: real)
    requires g > 0.0 && g * a == g * b
    ensures a == b
  {
  }

  /** With nothing but successes the score is n / (n + 1.96^2), with none it is zero. */
  lemma AllOrNone(n: real, root: real -> real)
    requires IsSqrt(root) && n > 0.0
    ensures WilsonLowerBound(n, n, root) == n / (n + 3.8416)
    ensures WilsonLowerBound(0.0, n, root) == 0.0
  {
    var x := ScoreSolves(n, n, root);
    CancelFactor(n, x);
    assert x * (n + 3.8416) == n;
    var y := ScoreSolves(0.0, n, root);
  }
}
