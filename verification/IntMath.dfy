// isqrt_fixed of src/util/intmath.c on an unsigned long of w bits. All arithmetic wraps modulo 2^w;
// when it does, and that the result is right exactly when it does not, is part of what is proved.
module IntMath {
  import opened Arithmetic

  function Wrap(x: int, w: nat): nat { x % Pow2(w) }

  /** The loop of isqrt_fixed from a given state on, as the final (q, r). */
  function Rounds(q: nat, r: nat, b: nat, endB: nat, w: nat): (nat, nat)
    decreases b
  {
    if b <= endB then (q, r) else
    var (q', r') := Round(q, r, b, w);
    Rounds(q', r', b / 2, endB, w)
  }

  // One round
  function Round(q: nat, r: nat, b: nat, w: nat): (nat, nat) {
    var t := Wrap(q + b, w);
    if r >= t then (Wrap(t + b, w), Wrap(2 * (r - t), w)) else (q, Wrap(2 * r, w))
  }

  // Half the integer bits, which is how far the final result is shifted
  function AdjBits(fpExp: nat, w: nat): nat
    requires fpExp <= w
  {
    (w - fpExp) / 2
  }

  function AuxBits(adj: nat): (aux: nat)
    ensures aux <= adj
  {
    if adj >= 2 then 2 else adj
  }

  function Isqrt(value: nat, fpExp: nat, w: nat): nat
    requires fpExp <= w && w >= 2
  {
    var adj := AdjBits(fpExp, w);
    var (q, r) := Rounds(0, value, Pow2(w - 2), Pow2(adj - AuxBits(adj)), w);
    Wrap(q / Pow2(adj) + (if r > q then 1 else 0), w)
  }

  /** The integer nearest to the square root of v: above r - 1/2 and below r + 1/2. */
  predicate NearestRoot(v: nat, r: nat) {
    (v > 0 ==> r * (r - 1) < v) && v <= r * (r + 1) && (v == 0 ==> r == 0)
  }

  /** The number whose root is asked for, as an integer. */
  function Radicand(value: nat, fpExp: nat): nat { value * Pow2(fpExp) }

  method IsqrtFixed(value: nat, fpExp: nat, w: nat) returns (root: nat)
    requires fpExp % 2 == 0 && fpExp <= w && w % 8 == 0 && w > 0   // fp_exp is asserted even
    requires value < Pow2(w)
    ensures root == Isqrt(value, fpExp, w)
    ensures RightIff(value, fpExp, w, root)
  {
    IsqrtMeans(value, fpExp, w);
    var adjBits := AdjBits(fpExp, w);
    var q, r := RootLoop(value, Pow2(adjBits - AuxBits(adjBits)), w);
    root := Wrap(q / Pow2(adjBits) + (if r > q then 1 else 0), w);
  }

  // Its loop
  method RootLoop(value: nat, endB: nat, w: nat) returns (q: nat, r: nat)
    requires w >= 2
    ensures (q, r) == Rounds(0, value, Pow2(w - 2), endB, w)
  {
    r, q := value, 0;
    var b: nat := Pow2(w - 2);
    while b > endB
      invariant Rounds(q, r, b, endB, w) == Rounds(0, value, Pow2(w - 2), endB, w)
      decreases b
    {
      q, r := RoundTurn(q, r, b, w);
      b := b / 2;
    }
  }

  method RoundTurn(q0: nat, r0: nat, b: nat, w: nat) returns (q: nat, r: nat)
    ensures (q, r) == Round(q0, r0, b, w)
  {
    q, r := q0, r0;
    var t := Wrap(q + b, w);
    if r >= t {
      r := r - t;
      q := Wrap(t + b, w);
    }
    r := Wrap(2 * r, w);
  }

  // When the result is right: for exponents up to w-4 exactly if all remainders fit, which they do below 2^(w-2), and
  // for the two beyond exactly if also the root is near enough to a step
  ghost predicate RightIff(value: nat, fpExp: nat, w: nat, root: nat)
    requires w >= 8
  {
    if fpExp <= w - 4 then
      && (NearestRoot(Radicand(value, fpExp), root) <==> NothingLost(value, fpExp, w))
      && (value < Pow2(w - 2) ==> NearestRoot(Radicand(value, fpExp), root))
    else
      NearestRoot(Radicand(value, fpExp), root)
      <==> NothingLost(value, w - 4, w) && RootIsNearStep(Radicand(value, w - 4), Step(fpExp, w))
  }

  lemma IsqrtMeans(value: nat, fpExp: nat, w: nat)
    requires fpExp % 2 == 0 && fpExp <= w && w % 8 == 0 && w > 0 && value < Pow2(w)
    ensures RightIff(value, fpExp, w, Isqrt(value, fpExp, w))
  {
    BytesAreEven(w);
    if fpExp > w - 4 {
      EvenExponents(fpExp, w);
      StepsAreNearestIff(value, fpExp, w);
    } else {
      RoundsToNearestIff(value, fpExp, w);
      if value < Pow2(w - 2) {
        RoundsToNearest(value, fpExp, w);
      }
    }
  }

  lemma EvenExponents(fpExp: nat, w: nat)
    requires fpExp % 2 == 0 && w % 2 == 0 && w - 4 < fpExp <= w
    ensures fpExp == w - 2 || fpExp == w
  {
  }

  lemma BytesAreEven(w: nat)
    requires w % 8 == 0
    ensures w % 2 == 0
  {
    DivModUnique(w, 2, 4 * (w / 8), 0);
  }

  lemma {:induction false} Pow2Add(a: nat, b: nat)
    ensures Pow2(a + b) == Pow2(a) * Pow2(b)
  {
    if a > 0 {
      Pow2Add(a - 1, b);
      assert Pow2(a) * Pow2(b) == 2 * (Pow2(a - 1) * Pow2(b));
    }
  }

  lemma {:induction false} Pow2Monotone(a: nat, b: nat)
    requires a <= b
    ensures Pow2(a) <= Pow2(b)
  {
    if a < b {
      Pow2Monotone(a, b - 1);
    }
  }

  // The bits found so far: root so far R = m*2b of the target, and the scaled remainder r
  ghost predicate Bracket(target: nat, root: nat, r: nat, b: nat) {
    r * b == target - root * root && target < (root + 2 * b) * (root + 2 * b)
  }

  // One round doubles the precision of the bracket
  lemma BracketHalves(target: nat, root: nat, r: nat, b: nat)
    requires Bracket(target, root, r, b) && b > 0
    ensures var root' := if r >= 2 * root + b then root + b else root;
            var r' := if r >= 2 * root + b then r - (2 * root + b) else r;
            r' * b == target - root' * root' && target < (root' + b) * (root' + b)
  {
    SquareOfSum(root, b);
    assert root + b + b == root + 2 * b;
    if r >= 2 * root + b {
      ScaledDifference(r, 2 * root + b, b);
    } else {
      MulStrict(r, 2 * root + b, b);
    }
  }

  lemma SquareOfSum(a: nat, b: nat)
    ensures (a + b) * (a + b) == a * a + (2 * a + b) * b
  {
  }

  lemma SquareLess(a: nat, b: nat)
    requires a * a < b * b
    ensures a < b
  {
    if a >= b {
      MulMonotone(b, a, a);
      MulMonotone(b, a, b);
    }
  }

  // Multiples of b below p leave room for one more b
  lemma RoomForOne(x: nat, j: nat, n: nat, b: nat, p: nat)
    requires x == j * b && p == n * b && x < p
    ensures x + b <= p
  {
    if j >= n {
      MulMonotone(n, j, b);
    }
    MulMonotone(j + 1, n, b);
    assert (j + 1) * b == j * b + b;
  }

  lemma WrapIsIdentity(x: nat, w: nat)
    requires x < Pow2(w)
    ensures Wrap(x, w) == x
  {
    DivModUnique(x, Pow2(w), 0, x);
  }

  // A remainder that is shifted out of the word loses 2^w, which is the top half of the word before the shift
  function Shifted(s: nat, w: nat): nat
    requires w > 0 && s < Pow2(w)
  {
    if s < Pow2(w - 1) then 2 * s else 2 * (s - Pow2(w - 1))
  }

  // One round of the loop
  lemma RoundsStep(root: nat, r: nat, b: nat, endB: nat, w: nat)
    requires w > 0 && b > endB && 2 * root + b < Pow2(w) && r < Pow2(w)
    requires r >= 2 * root + b ==> 2 * root + 2 * b < Pow2(w)
    ensures var (root', s) := if r >= 2 * root + b then (root + b, r - (2 * root + b)) else (root, r);
            Rounds(2 * root, r, b, endB, w) == Rounds(2 * root', Shifted(s, w), b / 2, endB, w)
  {
    var s := if r >= 2 * root + b then r - (2 * root + b) else r;
    WrapIsIdentity(2 * root + b, w);
    if r >= 2 * root + b {
      WrapIsIdentity(2 * root + b + b, w);
    }
    DivModUnique(2 * s, Pow2(w), if s < Pow2(w - 1) then 0 else 1, Shifted(s, w));
  }

  // A multiple of a power below a higher one leaves room for one more
  lemma RoomBelow(root: nat, m: nat, k: nat, j: nat)
    requires root == m * Pow2(k) && k <= j && root < Pow2(j)
    ensures root + Pow2(k) <= Pow2(j)
  {
    Pow2Add(j - k, k);
    RoomForOne(root, m, Pow2(j - k), Pow2(k), Pow2(j));
  }

  // What one round of the loop does. A shift out of the word takes as much off the target.
  lemma OneRound(target: nat, root: nat, r: nat, m: nat, k: nat, endB: nat, w: nat)
    returns (root': nat, r': nat, m': nat, target': nat)
    requires 0 < k <= w - 2 && endB < Pow2(k) && r < Pow2(w)
    requires target < Pow2(w - 1) * Pow2(w - 1) && Bracket(target, root, r, Pow2(k)) && root == m * (2 * Pow2(k))
    ensures root' == m' * Pow2(k) && root' * root' <= target < (root' + Pow2(k)) * (root' + Pow2(k))
    ensures target' == if target - root' * root' < Pow2(w - 1) * Pow2(k) then target else target - Pow2(w - 1) * Pow2(k)
    ensures Bracket(target', root', r', Pow2(k - 1)) && r' < Pow2(w)
    ensures Rounds(2 * root, r, Pow2(k), endB, w) == Rounds(2 * root', r', Pow2(k - 1), endB, w)
  {
    var b := Pow2(k);
    var s;
    root', s, m' := HalveStep(target, root, r, m, b);
    StaysInWord(target, root, r, m, k, w);
    RoundsStep(root, r, b, endB, w);
    r' := Shifted(s, w);
    target' := ShiftedBracket(target, root', s, k, w);
  }

  lemma StaysInWord(target: nat, root: nat, r: nat, m: nat, k: nat, w: nat)
    requires 0 < k <= w - 2 && target < Pow2(w - 1) * Pow2(w - 1)
    requires Bracket(target, root, r, Pow2(k)) && root == m * (2 * Pow2(k))
    ensures 2 * root + Pow2(k) < Pow2(w)
    ensures r >= 2 * root + Pow2(k) ==> 2 * root + 2 * Pow2(k) < Pow2(w)
  {
    var b, p := Pow2(k), Pow2(w - 1);
    RemainderIsNonneg(target, root, r, b);
    SquareLess(root, p);
    RoomBelow(root, m, k + 1, w - 1);
  }

  lemma HalveStep(target: nat, root: nat, r: nat, m: nat, b: nat) returns (root': nat, s: nat, m': nat)
    requires b > 0 && Bracket(target, root, r, b) && root == m * (2 * b)
    ensures root' == m' * b && root' == if r >= 2 * root + b then root + b else root
    ensures s == if r >= 2 * root + b then r - (2 * root + b) else r
    ensures s * b == target - root' * root' && root' * root' <= target < (root' + b) * (root' + b)
  {
    var take := r >= 2 * root + b;
    root', m' := if take then root + b else root, if take then 2 * m + 1 else 2 * m;
    s := if take then r - (2 * root + b) else r;
    BracketHalves(target, root, r, b);
    DoubledMultiple(m, b);
    RemainderIsNonneg(target, root', s, b);
  }

  lemma ShiftedBracket(target: nat, root: nat, s: nat, k: nat, w: nat) returns (target': nat)
    requires 0 < k <= w - 2 && s < Pow2(w)
    requires s * Pow2(k) == target - root * root && root * root <= target < (root + Pow2(k)) * (root + Pow2(k))
    ensures target' == if target - root * root < Pow2(w - 1) * Pow2(k) then target else target - Pow2(w - 1) * Pow2(k)
    ensures Bracket(target', root, Shifted(s, w), Pow2(k - 1)) && Shifted(s, w) < Pow2(w)
  {
    var b, p, h := Pow2(k), Pow2(w - 1), Pow2(k - 1);
    if s < p {
      target' := target;
      MulStrict(s, p, b);
      HalvedScale(target, root, s, h);
    } else {
      MulMonotone(p, s, b);
      ScaledDifference(s, p, b);
      MulMonotone(0, root, root);
      target' := target - p * b;
      HalvedScale(target', root, s - p, h);
    }
  }

  lemma DoubledMultiple(m: nat, b: nat)
    ensures (2 * m + 1) * b == m * (2 * b) + b && (2 * m) * b == m * (2 * b)
  {
  }

  lemma RemainderIsNonneg(target: nat, root: nat, s: nat, b: nat)
    requires s * b == target - root * root
    ensures root * root <= target
  {
    MulMonotone(0, s, b);
  }

  lemma HalvedScale(target: nat, root: nat, s: nat, h: nat)
    requires s * (2 * h) == target - root * root && target < (root + 2 * h) * (root + 2 * h)
    ensures Bracket(target, root, 2 * s, h)
  {
    assert (2 * s) * h == s * (2 * h);
  }

  /** d * n is the square root of v rounded down to a multiple of d. */
  ghost predicate RootDown(v: nat, d: nat, n: nat) {
    (n * d) * (n * d) <= v < ((n + 1) * d) * ((n + 1) * d)
  }

  /** What is left of v beside the square of its root, rounded down to a multiple of 2^i, is below 2^(i+g). */
  ghost predicate RemainderFits(v: nat, i: nat, g: nat) {
    forall n: nat | RootDown(v, Pow2(i), n) :: v - (n * Pow2(i)) * (n * Pow2(i)) < Pow2(i) * Pow2(g)
  }

  lemma RootDownIsUnique(v: nat, d: nat, a: nat, b: nat)
    requires RootDown(v, d, a) && RootDown(v, d, b)
    ensures a == b
  {
    var (x, y) := if a < b then (a, b) else (b, a);
    if x < y {
      MulMonotone(x + 1, y, d);
      SquareLess(y * d, (x + 1) * d);
    }
  }

  // v is above every number that has the nearest root of v', and so has another one
  ghost predicate Above(v: nat, v': nat) {
    forall r: nat | NearestRoot(v', r) :: r * r + r < v
  }

  // A loss of half the word or more takes the root to another integer
  lemma LossShows(v: nat, v': nat, m: nat, i: nat, g: nat)
    requires RootDown(v, Pow2(i), m) && i < g && v < Pow2(g) * Pow2(g)
    requires v - (m * Pow2(i)) * (m * Pow2(i)) >= Pow2(i) * Pow2(g) && v' + Pow2(i) * Pow2(g) <= v
    ensures Above(v, v')
  {
    var d, p, x := Pow2(i), Pow2(g), m * Pow2(i);
    SquareLess(x, p);
    RoomBelow(x, m, i, g);
    assert (m + 1) * d == x + d;
    LossOfManyShows(v, v', x, d, p);
  }

  lemma LossOfManyShows(v: nat, v': nat, x: nat, d: nat, p: nat)
    requires d > 0 && x * x + d * p <= v < (x + d) * (x + d) && x + d <= p && v < p * p && v' + d * p <= v
    ensures Above(v, v')
  {
    forall r: nat | NearestRoot(v', r) ensures r * r + r < v {
      LossShowsAt(v, v', x, d, p, r);
    }
  }

  lemma LossShowsAt(v: nat, v': nat, x: nat, d: nat, p: nat, r: nat)
    requires d > 0 && x * x + d * p <= v < (x + d) * (x + d) && x + d <= p && v < p * p && v' + d * p <= v
    requires NearestRoot(v', r)
    ensures r * r + r < v
  {
    if d == 1 {
      LossOfOneShows(v, v', x, p, r);
    } else {
      MulMonotone(2, d, p);
      LossOfTwoShows(v, v', p, r);
    }
  }

  lemma RootAbove(v: nat, r: nat, x: nat)
    requires NearestRoot(v, r) && r > x
    ensures v > x * x + x
  {
    MulMonotone(x + 1, r, r - 1);
    MulMonotone(x, r - 1, x + 1);
    assert x * (x + 1) == x * x + x;
  }

  lemma LossOfOneShows(v: nat, v': nat, x: nat, p: nat, r: nat)
    requires x * x + p <= v < (x + 1) * (x + 1) && x + 1 <= p && v' + p <= v && NearestRoot(v', r)
    ensures r * r + r < v
  {
    assert (x + 1) * (x + 1) == x * x + 2 * x + 1;
    if r > x {
      RootAbove(v', r, x);
    } else {
      MulMonotone(r, x, r);
      MulMonotone(r, x, x);
    }
  }

  lemma LossOfTwoShows(v: nat, v': nat, p: nat, r: nat)
    requires v < p * p && v' + 2 * p <= v && NearestRoot(v', r)
    ensures r * r + r < v
  {
    assert r * r + r == r * (r - 1) + 2 * r;
    if r > p {
      MulMonotone(p, r - 1, p);
      MulMonotone(p, r, r - 1);
    }
  }

  // The bracket of a round, seen without the offset factor c
  lemma Unscaled(v: nat, root: nat, x: nat, d: nat, c: nat)
    requires c > 0 && root == x * c && root * root <= v * (c * c) < (root + d * c) * (root + d * c)
    ensures x * x <= v < (x + d) * (x + d) && v * (c * c) - root * root == (v - x * x) * (c * c)
  {
    assert root + d * c == (x + d) * c;
    ScaledSquare(x, c);
    ScaledSquare(x + d, c);
    CancelAtMost(x * x, v, c * c);
    CancelLess(v, (x + d) * (x + d), c * c);
    ScaledDifference(v, x * x, c * c);
  }

  // What a lossy round takes off, seen without the offset factor
  lemma UnscaledLoss(v: nat, rest: nat, d: nat, p: nat, c: nat)
    requires c > 0
    ensures v * (c * c) - (p * c) * (d * c) == (v - d * p) * (c * c)
    ensures rest * (c * c) < (p * c) * (d * c) <==> rest < d * p
  {
    assert (p * c) * (d * c) == (d * p) * (c * c);
    ScaledDifference(v, d * p, c * c);
    CancelLess(rest, d * p, c * c);
    if rest < d * p {
      MulStrict(rest, d * p, c * c);
    }
  }

  // Whether a round loses something
  lemma LosesIff(v: nat, root: nat, m: nat, i: nat, g: nat, c: nat)
    requires c > 0 && root == (m * Pow2(i)) * c
    requires root * root <= v * (c * c) < (root + Pow2(i) * c) * (root + Pow2(i) * c)
    ensures RootDown(v, Pow2(i), m)
    ensures v * (c * c) - root * root < (Pow2(g) * c) * (Pow2(i) * c) <==> RemainderFits(v, i, g)
  {
    var d, x := Pow2(i), m * Pow2(i);
    Unscaled(v, root, x, d, c);
    assert (m + 1) * d == x + d;
    UnscaledLoss(v, v - x * x, d, Pow2(g), c);
    FitsIff(v, m, i, g);
  }

  lemma FitsIff(v: nat, m: nat, i: nat, g: nat)
    requires RootDown(v, Pow2(i), m)
    ensures RemainderFits(v, i, g) <==> v - (m * Pow2(i)) * (m * Pow2(i)) < Pow2(i) * Pow2(g)
  {
    forall n: nat | RootDown(v, Pow2(i), n) ensures n == m {
      RootDownIsUnique(v, Pow2(i), m, n);
    }
  }

  // No round from number i on down to 0 loses anything
  ghost predicate AllFit(v: nat, i: nat, g: nat) { forall j: nat | j < i :: RemainderFits(v, j, g) }

  // v with the square of the offset factor
  ghost function Offset(v: nat, adj: nat): nat
    requires adj > 0
  {
    v * (Pow2(adj - 1) * Pow2(adj - 1))
  }

  // One round on a target with the offset factor
  lemma OneOffsetRound(v: nat, root: nat, r: nat, m: nat, i: nat, adj: nat, w: nat)
    returns (root': nat, r': nat, m': nat, v': nat)
    requires 2 <= adj <= w && 0 < i <= w - adj && r < Pow2(w) && v < Pow2(w - adj) * Pow2(w - adj)
    requires Bracket(Offset(v, adj), root, r, Pow2(adj - 2 + i)) && root == m * (2 * Pow2(adj - 2 + i))
    ensures Bracket(Offset(v', adj), root', r', Pow2(adj - 3 + i)) && root' == m' * (2 * Pow2(adj - 3 + i))
    ensures r' < Pow2(w)
    ensures Rounds(2 * root, r, Pow2(adj - 2 + i), Pow2(adj - 2), w)
            == Rounds(2 * root', r', Pow2(adj - 3 + i), Pow2(adj - 2), w)
    ensures RootDown(v, Pow2(i - 1), m')
    ensures if RemainderFits(v, i - 1, w - adj) then v' == v else v' == v - Pow2(i - 1) * Pow2(w - adj)
  {
    var g, c, k := w - adj, Pow2(adj - 1), adj - 2 + i;
    TargetBelow(v, adj, w);
    Pow2Strict(adj - 2, k);
    var target;
    root', r', m', target := OneRound(Offset(v, adj), root, r, m, k, Pow2(adj - 2), w);
    Pow2Add(i - 1, adj - 1);
    Regrouped(m', Pow2(i - 1), c);
    LosesIff(v, root', m', i - 1, g, c);
    UnscaledLoss(v, 0, Pow2(i - 1), Pow2(g), c);
    v' := if RemainderFits(v, i - 1, g) then v else LessLoss(v, m', i - 1, g);
  }

  lemma Regrouped(a: int, b: int, c: int)
    ensures a * (b * c) == (a * b) * c
  {
  }

  // What is left when a remainder that does not fit loses as much as would have to fit
  ghost function LessLoss(v: nat, m: nat, i: nat, g: nat): (r: nat)
    requires RootDown(v, Pow2(i), m) && !RemainderFits(v, i, g)
    ensures r == v - Pow2(i) * Pow2(g)
  {
    FitsIff(v, m, i, g);
    MulMonotone(0, m * Pow2(i), m * Pow2(i));
    v - Pow2(i) * Pow2(g)
  }

  /** The rounds that are left, on a root and a target that carry the offset factor 2^(adj-1). They are those of an
      exact root, of v itself when no remainder is shifted out of the word, and otherwise of a number that has another
      nearest root. */
  lemma {:induction false} AllRounds(v: nat, root: nat, r: nat, m: nat, i: nat, adj: nat, w: nat)
    returns (root': nat, r': nat, m': nat, v': nat)
    requires 2 <= adj <= w && i <= w - adj && r < Pow2(w) && v < Pow2(w - adj) * Pow2(w - adj)
    requires Bracket(Offset(v, adj), root, r, Pow2(adj - 2 + i)) && root == m * (2 * Pow2(adj - 2 + i))
    ensures Bracket(Offset(v', adj), root', r', Pow2(adj - 2)) && root' == m' * (2 * Pow2(adj - 2))
    ensures root' < Pow2(w - 1) && v' <= v
    ensures Rounds(2 * root, r, Pow2(adj - 2 + i), Pow2(adj - 2), w) == (2 * root', r')
    ensures if AllFit(v, i, w - adj) then v' == v else Above(v, v')
    decreases i
  {
    if i == 0 {
      root', r', m', v' := root, r, m, v;
      TargetBelow(v, adj, w);
      RemainderIsNonneg(Offset(v, adj), root, r, Pow2(adj - 2));
      SquareLess(root, Pow2(w - 1));
    } else {
      var root1, r1, m1, v1 := OneOffsetRound(v, root, r, m, i, adj, w);
      MulMonotone(0, Pow2(i - 1), Pow2(w - adj));
      root', r', m', v' := AllRounds(v1, root1, r1, m1, i - 1, adj, w);
      if !RemainderFits(v, i - 1, w - adj) {
        FitsIff(v, m1, i - 1, w - adj);
        LossShows(v, v', m1, i - 1, w - adj);
      }
    }
  }

  lemma TargetBelow(v: nat, adj: nat, w: nat)
    requires 2 <= adj <= w && v < Pow2(w - adj) * Pow2(w - adj)
    ensures Pow2(w - 1) == Pow2(w - adj) * Pow2(adj - 1)
    ensures Offset(v, adj) < Pow2(w - 1) * Pow2(w - 1)
  {
    Pow2Add(w - adj, adj - 1);
    ScaledSquare(Pow2(w - adj), Pow2(adj - 1));
    MulStrict(v, Pow2(w - adj) * Pow2(w - adj), Pow2(adj - 1) * Pow2(adj - 1));
  }

  lemma Pow2Strict(a: nat, b: nat)
    requires a < b
    ensures Pow2(a) < Pow2(b)
  {
    Pow2Monotone(a, b - 1);
  }

  // With the offset factor c removed, n is the root rounded down and r decides the rounding
  lemma BracketMeans(v: nat, n: nat, r: nat, e: nat)
    requires e > 0 && Bracket(v * ((2 * e) * (2 * e)), n * (2 * e), r, e)
    ensures n * n <= v < (n + 1) * (n + 1)
    ensures r * e == (v - n * n) * ((2 * e) * (2 * e))
  {
    var c := 2 * e;
    ScaledSquare(n, c);
    ScaledSquare(n + 1, c);
    assert (n + 1) * c == n * c + c;
    RemainderIsNonneg(v * (c * c), n * c, r, e);
    CancelLess(v, (n + 1) * (n + 1), c * c);
    CancelAtMost(n * n, v, c * c);
    ScaledDifference(v, n * n, c * c);
  }

  lemma ScaledSquare(n: nat, c: nat)
    ensures (n * c) * (n * c) == (n * n) * (c * c)
  {
    assert (n * c) * (n * c) == n * (c * (n * c)) == n * (n * (c * c));
  }

  lemma ScaledDifference(a: int, b: int, c: int)
    ensures (a - b) * c == a * c - b * c
  {
  }

  lemma RoundUpIff(d: nat, n: nat, r: nat, e: nat)
    requires e > 0 && r * e == d * ((2 * e) * (2 * e))
    ensures r > 2 * (n * (2 * e)) <==> d > n
  {
    var c := 2 * e;
    assert (2 * (n * c)) * e == n * (c * c);
    if r > 2 * (n * c) {
      MulStrict(2 * (n * c), r, e);
      CancelLess(n, d, c * c);
    } else {
      MulMonotone(r, 2 * (n * c), e);
      CancelAtMost(d, n, c * c);
    }
  }

  lemma NearestFromBracket(v: nat, n: nat, r: nat, e: nat)
    requires e > 0 && Bracket(v * ((2 * e) * (2 * e)), n * (2 * e), r, e)
    ensures NearestRoot(v, n + (if r > 2 * (n * (2 * e)) then 1 else 0))
  {
    BracketMeans(v, n, r, e);
    RoundUpIff(v - n * n, n, r, e);
    RoundedIsNearest(v, n);
  }

  lemma RoundedIsNearest(v: nat, n: nat)
    requires n * n <= v < (n + 1) * (n + 1)
    ensures NearestRoot(v, n + (if v - n * n > n then 1 else 0))
  {
    assert (n + 1) * (n + 1) == n * n + 2 * n + 1;
    assert (n + 1) * (n + 2) == n * n + 3 * n + 2;
    assert n * (n - 1) == n * n - n && n * (n + 1) == n * n + n;
    assert n == 0 || n * n > 0;
  }

  lemma CancelLess(a: int, b: int, c: int)
    requires c > 0
    ensures a * c < b * c ==> a < b
  {
    if a >= b {
      MulMonotone(b, a, c);
    }
  }

  lemma MulStrict(a: int, b: int, c: int)
    requires c > 0 && a < b
    ensures a * c < b * c
  {
    MulMonotone(a + 1, b, c);
    assert (a + 1) * c == a * c + c;
  }

  lemma CancelAtMost(a: int, b: int, c: int)
    requires c > 0
    ensures a * c <= b * c ==> a <= b
  {
    if a > b {
      MulStrict(b, a, c);
    }
  }

  /** For every value of w bits and every even exponent up to w-4 the result is the integer nearest to the square
      root of value * 2^exponent, which is the root of the fixed-point value in the same scale, exactly when all
      remainders fit, that is when no shift takes one out of the word. */
  lemma RoundsToNearestIff(value: nat, fpExp: nat, w: nat)
    requires fpExp % 2 == 0 && w % 2 == 0 && w >= 4 && fpExp <= w - 4 && value < Pow2(w)
    ensures NearestRoot(Radicand(value, fpExp), Isqrt(value, fpExp, w)) <==> NothingLost(value, fpExp, w)
  {
    var e := Pow2(AdjBits(fpExp, w) - 2);
    var n, r, v' := IsqrtIs(value, fpExp, w, e);
    NearestFromBracket(v', n, r, e);
    if !NothingLost(value, fpExp, w) {
      AboveIsFar(Radicand(value, fpExp), v', Isqrt(value, fpExp, w));
    }
  }

  lemma AboveIsFar(v: nat, v': nat, r: nat)
    requires NearestRoot(v', r) && Above(v, v')
    ensures !NearestRoot(v, r)
  {
    assert r * (r + 1) == r * r + r;
  }

  // All remainders fit, down to those of single steps
  ghost predicate NothingLost(value: nat, fpExp: nat, w: nat) {
    AllFit(Radicand(value, fpExp), (w + fpExp) / 2, (w + fpExp) / 2)
  }

  /** They always fit for values below 2^(w-2). */
  lemma RoundsToNearest(value: nat, fpExp: nat, w: nat)
    requires fpExp % 2 == 0 && w % 2 == 0 && w >= 4 && fpExp <= w - 4 && value < Pow2(w - 2)
    ensures NearestRoot(Radicand(value, fpExp), Isqrt(value, fpExp, w))
  {
    SmallLosesNothing(value, fpExp, w);
    Pow2Strict(w - 2, w);
    RoundsToNearestIff(value, fpExp, w);
  }

  lemma SmallLosesNothing(value: nat, fpExp: nat, w: nat)
    requires fpExp % 2 == 0 && w % 2 == 0 && w >= 2 && value < Pow2(w - 2)
    ensures NothingLost(value, fpExp, w)
  {
    var g := (w + fpExp) / 2;
    SmallRadicand(value, fpExp, w, g);
    AllSmallFit(Radicand(value, fpExp), g);
  }

  lemma SmallRadicand(value: nat, fpExp: nat, w: nat, g: nat)
    requires w >= 2 && value < Pow2(w - 2) && 2 * g == w + fpExp
    ensures g > 0 && Radicand(value, fpExp) < Pow2(g - 1) * Pow2(g - 1)
  {
    Pow2Add(w - 2, fpExp);
    MulStrict(value, Pow2(w - 2), Pow2(fpExp));
    Pow2Add(g - 1, g - 1);
  }

  lemma AllSmallFit(v: nat, g: nat)
    requires g > 0 && v < Pow2(g - 1) * Pow2(g - 1)
    ensures AllFit(v, g, g)
  {
    forall i: nat | i < g ensures RemainderFits(v, i, g) {
      SmallFits(v, i, g);
    }
  }

  lemma SmallFits(v: nat, i: nat, g: nat)
    requires i < g && v < Pow2(g - 1) * Pow2(g - 1)
    ensures RemainderFits(v, i, g)
  {
    var d, h := Pow2(i), Pow2(g - 1);
    forall n: nat | RootDown(v, d, n) ensures v - (n * d) * (n * d) < d * Pow2(g) {
      var x := n * d;
      SquareLess(x, h);
      RoomBelow(x, n, i, g - 1);
      assert (n + 1) * d == x + d;
      SquareOfSum(x, d);
      MulMonotone(2 * x + d, 2 * h, d);
    }
  }

  lemma IsqrtIs(value: nat, fpExp: nat, w: nat, e: nat) returns (n: nat, r: nat, v': nat)
    requires fpExp % 2 == 0 && w % 2 == 0 && w >= 4 && fpExp <= w - 4 && value < Pow2(w)
    requires e == Pow2(AdjBits(fpExp, w) - 2)
    ensures && Bracket(v' * ((2 * e) * (2 * e)), n * (2 * e), r, e) && n * (2 * e) < Pow2(w - 1)
            && Rounds(0, value, Pow2(w - 2), e, w) == (2 * (n * (2 * e)), r)
            && Isqrt(value, fpExp, w) == n + (if r > 2 * (n * (2 * e)) then 1 else 0)
    ensures if NothingLost(value, fpExp, w) then v' == Radicand(value, fpExp) else Above(Radicand(value, fpExp), v')
  {
    var adj, p, v := AdjBits(fpExp, w), Pow2(w - 2), Radicand(value, fpExp);
    assert w - adj == (w + fpExp) / 2;
    TargetIs(value, fpExp, w);
    assert Pow2(w) == 2 * Pow2(w - 1) && Pow2(w - 1) == 2 * p;
    StartBracket(value, p);
    Pow2Add(w, fpExp);
    MulStrict(value, Pow2(w), Pow2(fpExp));
    Pow2Add(w - adj, w - adj);
    var root;
    root, r, n, v' := AllRounds(v, 0, value, 0, w - adj, adj, w);
    FinalShift(n, adj, 2 * root, root, w, r);
  }

  // The loop looks for the root of the value scaled up by an even power of two
  lemma TargetIs(value: nat, fpExp: nat, w: nat)
    requires fpExp % 2 == 0 && w % 2 == 0 && w >= 4 && fpExp <= w - 4
    ensures var e := Pow2(AdjBits(fpExp, w) - 2);
            value * Pow2(w - 2) == Radicand(value, fpExp) * ((2 * e) * (2 * e))
  {
    var adj := AdjBits(fpExp, w);
    var a, b := Pow2(fpExp), Pow2(adj - 1);
    Pow2Add(fpExp, 2 * (adj - 1));
    Pow2Add(adj - 1, adj - 1);
    assert Pow2(w - 2) == a * (b * b);
    assert value * (a * (b * b)) == (value * a) * (b * b);
  }

  lemma StartBracket(value: nat, p: nat)
    requires value < 4 * p
    ensures Bracket(value * p, 0, value, p)
  {
    MulStrict(value, 4 * p, p);
    assert (4 * p) * p == (2 * p) * (2 * p);
  }

  lemma FinalShift(n: nat, adj: nat, q: nat, root: nat, w: nat, r: nat)
    requires adj >= 2 && w >= 4 && root == n * (2 * Pow2(adj - 2)) && q == 2 * root && root < Pow2(w - 1)
    ensures Wrap(q / Pow2(adj) + (if r > q then 1 else 0), w) == n + (if r > q then 1 else 0)
  {
    assert Pow2(adj) == 2 * Pow2(adj - 1) && Pow2(adj - 1) == 2 * Pow2(adj - 2);
    assert q == n * Pow2(adj);
    DivModUnique(q, Pow2(adj), n, 0);
    MulMonotone(1, 2 * Pow2(adj - 2), n);
    assert Pow2(w) == 2 * Pow2(w - 1) && Pow2(w - 1) == 2 * Pow2(w - 2);
    WrapIsIdentity(n, w);
    WrapIsIdentity(n + 1, w);
  }

  /** They do not fit for any value from 3 * 2^(w-2) on: already the first shift takes its remainder out of the word. */
  lemma LargeValuesFail(value: nat, fpExp: nat, w: nat)
    requires fpExp % 2 == 0 && w % 2 == 0 && w >= 4 && fpExp <= w - 4 && 3 * Pow2(w - 2) <= value < Pow2(w)
    ensures !NearestRoot(Radicand(value, fpExp), Isqrt(value, fpExp, w))
  {
    var g := (w + fpExp) / 2;
    LargeRadicand(value, fpExp, w, g);
    LargeDoesNotFit(Radicand(value, fpExp), g);
    RoundsToNearestIff(value, fpExp, w);
  }

  lemma LargeRadicand(value: nat, fpExp: nat, w: nat, g: nat)
    requires w >= 2 && 2 * g == w + fpExp && 3 * Pow2(w - 2) <= value < Pow2(w)
    ensures g > 0 && 3 * (Pow2(g - 1) * Pow2(g - 1)) <= Radicand(value, fpExp) < 4 * (Pow2(g - 1) * Pow2(g - 1))
  {
    Pow2Add(w - 2, fpExp);
    Pow2Add(g - 1, g - 1);
    assert Pow2(w) == 2 * Pow2(w - 1) && Pow2(w - 1) == 2 * Pow2(w - 2);
    FromThreeToFour(value, Pow2(w - 2), Pow2(fpExp), Pow2(g - 1) * Pow2(g - 1));
  }

  lemma LargeDoesNotFit(v: nat, g: nat)
    requires g > 0 && 3 * (Pow2(g - 1) * Pow2(g - 1)) <= v < 4 * (Pow2(g - 1) * Pow2(g - 1))
    ensures !RemainderFits(v, g - 1, g)
  {
    var d := Pow2(g - 1);
    assert Pow2(g) == 2 * d;
    assert d * (2 * d) == 2 * (d * d) && (2 * d) * (2 * d) == 4 * (d * d);
    assert RootDown(v, d, 1);
    FitsIff(v, 1, g - 1, g);
  }

  lemma FromThreeToFour(value: nat, p: nat, f: nat, pf: nat)
    requires 3 * p <= value < 4 * p && pf == p * f && f > 0
    ensures 3 * pf <= value * f < 4 * pf
  {
    MulMonotone(3 * p, value, f);
    MulStrict(value, 4 * p, f);
    assert (3 * p) * f == 3 * (p * f) && (4 * p) * f == 4 * (p * f);
  }

  // ---- The exponents w-2 and w ----

  // The loop is the one for exponent w-4, and the result a multiple of 2 or 4, plus the rounding
  function Step(fpExp: nat, w: nat): (step: nat)
    ensures step == 2 || step == 4
  {
    if fpExp == w then 4 else 2
  }

  // With n the root of u rounded down and s its square: whether step * n, or the number behind it where the remainder
  // u - s is greater than n, is nearest to the root of u in this scale
  predicate StepIsNearest(u: nat, n: nat, s: nat, step: nat) {
    if step == 2 then 2 * u <= 2 * s + n || (s + n < u && 2 * u <= 2 * s + 3 * n + 1)
    else 4 * u <= 4 * s + n
  }

  ghost predicate RootIsNearStep(u: nat, step: nat) {
    forall n: nat | RootDown(u, 1, n) :: StepIsNearest(u, n, n * n, step)
  }

  // The result, and its square
  function Stepped(n: nat, up: bool, step: nat): nat {
    (if step == 2 then 2 * n else 4 * n) + (if up then 1 else 0)
  }

  function SteppedSquare(n: nat, s: nat, up: bool, step: nat): nat {
    if step == 2 then if up then 4 * s + 4 * n + 1 else 4 * s
    else if up then 16 * s + 8 * n + 1 else 16 * s
  }

  function Scaled(u: nat, step: nat): nat { if step == 2 then 4 * u else 16 * u }

  lemma SteppedSquareIs(n: nat, up: bool, step: nat)
    ensures Stepped(n, up, step) * Stepped(n, up, step) == SteppedSquare(n, n * n, up, step)
  {
  }

  // NearestRoot with the square of the root at hand
  predicate Nearest(v: nat, r: nat, rr: nat) { (v > 0 ==> rr - r < v) && v <= rr + r && (v == 0 ==> r == 0) }

  lemma NearestIs(v: nat, r: nat)
    ensures NearestRoot(v, r) <==> Nearest(v, r, r * r)
  {
    assert r * (r - 1) == r * r - r && r * (r + 1) == r * r + r;
  }

  lemma StepArithmetic(u: nat, n: nat, s: nat, step: nat)
    requires s <= u <= s + 2 * n && n <= s && (n == 0 ==> s == 0) && (step == 2 || step == 4)
    ensures Nearest(Scaled(u, step), Stepped(n, u - s > n, step), SteppedSquare(n, s, u - s > n, step))
            <==> StepIsNearest(u, n, s, step)
  {
  }

  lemma StepIsNearestIff(u: nat, n: nat, step: nat)
    requires n * n <= u < (n + 1) * (n + 1) && (step == 2 || step == 4)
    ensures NearestRoot(Scaled(u, step), Stepped(n, u - n * n > n, step)) <==> StepIsNearest(u, n, n * n, step)
  {
    NearestIs(Scaled(u, step), Stepped(n, u - n * n > n, step));
    SteppedSquareIs(n, u - n * n > n, step);
    if n > 0 {
      MulMonotone(1, n, n);
    }
    assert (n + 1) * (n + 1) == n * n + 2 * n + 1;
    StepArithmetic(u, n, n * n, step);
  }

  // A number above those with the nearest root of u' is not met by a step from the root of u' either
  lemma StepBelow(u: nat, u': nat, n: nat, step: nat)
    requires n * n <= u' < (n + 1) * (n + 1) && Above(u, u') && (step == 2 || step == 4)
    ensures !NearestRoot(Scaled(u, step), Stepped(n, u' - n * n > n, step))
  {
    var up := u' - n * n > n;
    RoundedIsNearest(u', n);
    assert (n + 1) * (n + 1) == n * n + 2 * n + 1;
    NearestIs(Scaled(u, step), Stepped(n, up, step));
    SteppedSquareIs(n, up, step);
    BelowArithmetic(u, n, n * n, up, step);
  }

  lemma BelowArithmetic(u: nat, n: nat, s: nat, up: bool, step: nat)
    requires (if up then s + 3 * n + 2 else s + n) < u && (step == 2 || step == 4)
    ensures !Nearest(Scaled(u, step), Stepped(n, up, step), SteppedSquare(n, s, up, step))
  {
  }

  // The loop is the one for exponent w-4; only the shift of its result is less
  lemma IsqrtInStepsIs(value: nat, fpExp: nat, w: nat) returns (n: nat, u': nat)
    requires w % 2 == 0 && w >= 4 && (fpExp == w - 2 || fpExp == w) && value < Pow2(w)
    ensures n * n <= u' < (n + 1) * (n + 1)
    ensures Isqrt(value, fpExp, w) == Stepped(n, u' - n * n > n, Step(fpExp, w))
    ensures if NothingLost(value, w - 4, w) then u' == Radicand(value, w - 4) else Above(Radicand(value, w - 4), u')
  {
    var r;
    n, r, u' := LoopIs(value, w);
    LessShift(value, fpExp, w, n, r, u' - n * n > n);
  }

  lemma LoopIs(value: nat, w: nat) returns (n: nat, r: nat, u': nat)
    requires w % 2 == 0 && w >= 4 && value < Pow2(w)
    ensures n * n <= u' < (n + 1) * (n + 1) && 2 * n < Pow2(w - 1) && (r > 4 * n <==> u' - n * n > n)
    ensures Rounds(0, value, Pow2(w - 2), 1, w) == (4 * n, r)
    ensures if NothingLost(value, w - 4, w) then u' == Radicand(value, w - 4) else Above(Radicand(value, w - 4), u')
  {
    assert AdjBits(w - 4, w) == 2 && Pow2(0) == 1;
    n, r, u' := IsqrtIs(value, w - 4, w, 1);
    BracketMeans(u', n, r, 1);
    RoundUpIff(u' - n * n, n, r, 1);
  }

  lemma LessShift(value: nat, fpExp: nat, w: nat, n: nat, r: nat, up: bool)
    requires w >= 4 && (fpExp == w - 2 || fpExp == w) && 2 * n < Pow2(w - 1)
    requires Rounds(0, value, Pow2(w - 2), 1, w) == (4 * n, r) && up == (r > 4 * n)
    ensures Isqrt(value, fpExp, w) == Stepped(n, up, Step(fpExp, w))
  {
    var adj := AdjBits(fpExp, w);
    assert adj == (if fpExp == w then 0 else 1) && Pow2(0) == 1 && Pow2(1) == 2;
    assert Pow2(w) == 2 * Pow2(w - 1) && Pow2(w - 1) == 2 * Pow2(w - 2) && Pow2(w - 2) == 2 * Pow2(w - 3);
    DivModUnique(4 * n, Pow2(adj), Stepped(n, false, Step(fpExp, w)), 0);
    WrapIsIdentity(Stepped(n, up, Step(fpExp, w)), w);
  }

  lemma InSteps(value: nat, fpExp: nat, w: nat)
    requires w >= 4 && (fpExp == w - 2 || fpExp == w)
    ensures Radicand(value, fpExp) == Scaled(Radicand(value, w - 4), Step(fpExp, w))
  {
    Pow2Add(w - 4, fpExp - (w - 4));
    assert Pow2(2) == 4 && Pow2(4) == 16;
    assert value * (Pow2(w - 4) * Pow2(fpExp - (w - 4))) == (value * Pow2(w - 4)) * Pow2(fpExp - (w - 4));
  }

  /** For the exponents w-2 and w the correction has lost bits that it rounds by. The result is nearest exactly when no
      shift takes a remainder out of the word and the root lies in the part of a step that is rounded right. */
  lemma StepsAreNearestIff(value: nat, fpExp: nat, w: nat)
    requires w % 2 == 0 && w >= 4 && (fpExp == w - 2 || fpExp == w) && value < Pow2(w)
    ensures NearestRoot(Radicand(value, fpExp), Isqrt(value, fpExp, w))
            <==> NothingLost(value, w - 4, w) && RootIsNearStep(Radicand(value, w - 4), Step(fpExp, w))
  {
    var u := Radicand(value, w - 4);
    var n, u' := IsqrtInStepsIs(value, fpExp, w);
    InSteps(value, fpExp, w);
    if NothingLost(value, w - 4, w) {
      NearStepIff(u, n, Step(fpExp, w));
      StepIsNearestIff(u, n, Step(fpExp, w));
    } else {
      StepBelow(u, u', n, Step(fpExp, w));
    }
  }

  lemma NearStepIff(u: nat, n: nat, step: nat)
    requires n * n <= u < (n + 1) * (n + 1)
    ensures RootIsNearStep(u, step) <==> StepIsNearest(u, n, n * n, step)
  {
    assert RootDown(u, 1, n);
    forall n': nat | RootDown(u, 1, n') ensures n' == n {
      RootDownIsUnique(u, 1, n, n');
    }
  }

  lemma Powers()
    ensures Pow2(8) == 0x100 && Pow2(16) == 0x1_0000 && Pow2(28) == 0x1000_0000 && Pow2(60) == 0x1000_0000_0000_0000
    ensures Pow2(32) == 0x1_0000_0000 && Pow2(64) == 0x1_0000_0000_0000_0000
  {
    assert Pow2(4) == 16;
    Pow2Add(4, 4);
    Pow2Add(8, 8);
    Pow2Add(16, 8);
    Pow2Add(24, 4);
    Pow2Add(28, 4);
    Pow2Add(32, 28);
    Pow2Add(32, 32);
  }

  /** On words of 32 and of 64 bits neither gives the nearest root of 3. */
  lemma ExponentLimitIsNeeded(fpExp: nat, w: nat)
    requires (w == 32 || w == 64) && (fpExp == w - 2 || fpExp == w)
    ensures !NearestRoot(Radicand(3, fpExp), Isqrt(3, fpExp, w))
  {
    Powers();
    var n := if w == 32 then 28377 else 1859775393;
    NearStepIff(Radicand(3, w - 4), n, Step(fpExp, w));
    StepsAreNearestIff(3, fpExp, w);
  }
}
