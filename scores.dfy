/**
 * The numbers of the A* search. Every g is a whole number of steps (or
 * Infinity before a node is reached), and every h and f is a whole number
 * plus, possibly, one √2. Only comparisons between them matter, so each is
 * kept exactly as a whole part and a flag for the √2 part.
 */
module Scores {
  datatype Cost = Finite(whole: int, sqrt2: bool) | Infinity

  /** A cost-from-start: never carries a √2 part. */
  type Steps = c: Cost | c.Infinity? || !c.sqrt2 witness Infinity

  /** The source's `a < b` on these values. */
  predicate Less(a: Cost, b: Cost) {
    match (a, b)
    case (Infinity, _) => false
    case (Finite(_, _), Infinity) => true
    case (Finite(m, p), Finite(n, q)) =>
      if p == q then m < n
      else if p then n - m >= 2   // m + √2 < n
      else m - n <= 1             // m < n + √2
  }

  /** `a <= b`, read as the negation of `b < a` (as the source's `>=` is). */
  predicate AtMost(a: Cost, b: Cost) {
    !Less(b, a)
  }

  /**
   * Exact comparison of m + p·√2 with n + q·√2 in integers only, by squaring:
   * k > √2 iff k > 0 and k² > 2, and k < √2 iff k <= 0 or k² < 2.
   */
  ghost predicate ExactlyLess(a: Cost, b: Cost) {
    match (a, b)
    case (Infinity, _) => false
    case (Finite(_, _), Infinity) => true
    case (Finite(m, p), Finite(n, q)) =>
      if p == q then m < n
      else if p then n - m > 0 && (n - m) * (n - m) > 2
      else m - n <= 0 || (m - n) * (m - n) < 2
  }

  /** `g + k` for a whole number of steps; Infinity stays Infinity. */
  function AddSteps(g: Steps, k: int): Steps {
    match g
    case Infinity => Infinity
    case Finite(n, _) => Finite(n + k, false)
  }

  /** `g + h`: the whole parts add up and h's √2 part is kept. */
  function Add(g: Steps, h: Cost): Cost {
    if g.Infinity? || h.Infinity? then Infinity else Finite(g.whole + h.whole, h.sqrt2)
  }

  /** The integer rules of Less decide the same comparisons as exact arithmetic. */
  lemma LessIsExact(a: Cost, b: Cost)
    ensures Less(a, b) <==> ExactlyLess(a, b)
  {
    match (a, b)
    case (Finite(m, p), Finite(n, q)) =>
      if p && !q {
        SquareAgainstTwo(n - m);
      } else if !p && q {
        SquareAgainstTwo(m - n);
      }
    case _ =>
  }

  /** k² exceeds 2 exactly when k is at least 2 away from 0. */
  lemma SquareAgainstTwo(k: int)
    ensures (k >= 2 || k <= -2) ==> k * k > 2
    ensures -1 <= k <= 1 ==> k * k <= 1
  {
    if k >= 2 {
      assert k * k == k * (k - 2) + 2 * k;
      assert k * (k - 2) >= 0;
    } else if k <= -2 {
      assert k * k == k * (k + 2) - 2 * k;
      assert k * (k + 2) >= 0;
    } else {
      assert k == -1 || k == 0 || k == 1;
    }
  }

  lemma LessIsAsymmetric(a: Cost, b: Cost)
    ensures Less(a, b) ==> !Less(b, a)
  {
  }

  lemma AtMostIsTransitive(a: Cost, b: Cost, c: Cost)
    requires AtMost(a, b) && AtMost(b, c)
    ensures AtMost(a, c)
  {
  }
}
