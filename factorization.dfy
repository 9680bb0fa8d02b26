/** The trial-division computation inside the largest-prime-divisor worker
    (`TMaximumPrimeDevisorActor::HandleWakeUp`), as values: one loop iteration,
    any number of iterations (one turn of the actor), the whole loop, and the
    value sent once the loop is over. The loop invariant and the correctness of
    the result are proved here; the actor class replays them on its fields. */
module Factorization {
  import opened Primes

  /** The worker's three factorisation fields: `Value` (what is left to factor),
      `CurrentDevisor` (the next candidate) and `LargestPrimeDevisor`. */
  datatype Trial = Trial(value: int, divisor: int, largest: int)

  /** The fields as the constructor sets them for input `n`. */
  function Start(n: int): Trial {
    Trial(n, 2, 1)
  }

  /** The shape every state reached from a positive input has. */
  predicate WellFormed(t: Trial) {
    t.value >= 1 && t.divisor >= 2
  }

  /** The loop guard `CurrentDevisor * CurrentDevisor <= Value`. */
  predicate Searching(t: Trial) {
    t.divisor * t.divisor <= t.value
  }

  /** One loop iteration: divide the candidate out (and keep it, since it may
      divide again), or move on to the next candidate. Every iteration makes
      progress: `value` shrinks while the candidate stays, or the candidate
      grows while `value` stays and still bounds it. */
  function Next(t: Trial): (u: Trial)
    requires WellFormed(t) && Searching(t)
    ensures WellFormed(u)
    ensures || (u.value < t.value && u.divisor == t.divisor && u.value * u.divisor == t.value)
            || (u.value == t.value && u.divisor == t.divisor + 1 && u.divisor <= t.value)
  {
    if t.value % t.divisor == 0 then
      MulMonotone(2, t.divisor, t.value / t.divisor, t.value / t.divisor);
      Trial(t.value / t.divisor, t.divisor, t.divisor)
    else
      Trial(t.value, t.divisor + 1, t.largest)
  }

  /** At most `k` iterations: what one turn of the worker does when it yields
      after its `k`-th iteration, or finishes earlier. */
  function Advance(t: Trial, k: nat): (u: Trial)
    requires WellFormed(t)
    ensures WellFormed(u)
    decreases k
  {
    if k == 0 || !Searching(t) then t else Advance(Next(t), k - 1)
  }

  /** The whole loop, run to its exit. */
  function Complete(t: Trial): (u: Trial)
    requires WellFormed(t)
    ensures WellFormed(u) && !Searching(u)
    decreases t.value, t.value - t.divisor + 1
  {
    if Searching(t) then Complete(Next(t)) else t
  }

  /** The number of loop iterations left before the guard fails: the loop
      terminates from every well-formed state. */
  function Remaining(t: Trial): nat
    requires WellFormed(t)
    decreases t.value, t.value - t.divisor + 1
  {
    if Searching(t) then 1 + Remaining(Next(t)) else 0
  }

  /** The value sent to the writer once the loop is over: a residue above 1 is
      itself the largest prime factor, otherwise the last factor divided out. */
  function Outcome(t: Trial): int {
    if t.value > 1 then t.value else t.largest
  }

  /** What the worker sends to the writer for input `n`: a non-positive input
      passes through unchanged, a positive one yields its largest prime divisor
      (1 for 1). */
  function WorkerResult(n: int): int {
    if n < 1 then n else Outcome(Complete(Start(n)))
  }

  /** The worker is correct: for a positive input it sends the largest prime
      divisor, whatever the input. */
  lemma WorkerResultIsLargestPrimeDivisor(n: int)
    requires n >= 1
    ensures WorkerResult(n) == LargestPrimeDivisor(n)
  {
    InvAtStart(n);
    CompleteFindsLargestPrimeDivisor(n, Start(n), []);
  }

  /** The product of a sequence of factors. */
  function Product(s: seq<int>): int {
    if s == [] then 1 else Product(s[..|s| - 1]) * s[|s| - 1]
  }

  /** The factors divided out by the iteration from `t`, given those divided out before. */
  function DividedOut(t: Trial, removed: seq<int>): seq<int>
    requires t.divisor != 0
  {
    if t.value % t.divisor == 0 then removed + [t.divisor] else removed
  }

  /** The loop invariant, for input `n` with `removed` the factors divided out so far:
      - `n` is the product of the removed factors times `value`;
      - the removed factors are primes, in non-decreasing order, none above the candidate;
      - `largest` is 1 before any division and the largest removed factor after;
      - `value` has no divisor in `[2, divisor)`;
      - every prime divisor of `n` is at most `largest` or still divides `value`. */
  ghost predicate Inv(n: int, t: Trial, removed: seq<int>) {
    && n >= 1 && WellFormed(t)
    && n == Product(removed) * t.value
    && (forall i :: 0 <= i < |removed| ==> IsPrime(removed[i]) && removed[i] <= t.divisor)
    && (forall i, j :: 0 <= i < j < |removed| ==> removed[i] <= removed[j])
    && t.largest == (if removed == [] then 1 else removed[|removed| - 1])
    && (forall d :: 2 <= d < t.divisor ==> t.value % d != 0)
    && (forall q :: IsPrime(q) && n % q == 0 ==> q <= t.largest || t.value % q == 0)
  }

  lemma InvAtStart(n: int)
    requires n >= 1
    ensures Inv(n, Start(n), [])
  {
  }

  /** A candidate that divides `value` while nothing below it does is prime. */
  lemma DivisorFoundIsPrime(v: int, c: int)
    requires v >= 1 && c >= 2 && v % c == 0
    requires forall d :: 2 <= d < c ==> v % d != 0
    ensures IsPrime(c)
  {
    forall d | 2 <= d < c
      ensures c % d != 0
    {
      if c % d == 0 {
        DividesTrans(d, c, v);
      }
    }
  }

  /** One iteration keeps the invariant, never lowers the candidate and never
      lowers `largest`. */
  lemma NextKeepsInv(n: int, t: Trial, removed: seq<int>)
    requires Inv(n, t, removed) && Searching(t)
    ensures Inv(n, Next(t), DividedOut(t, removed))
    ensures Next(t).divisor >= t.divisor && Next(t).largest >= t.largest
  {
    if t.value % t.divisor == 0 {
      DivideKeepsInv(n, t, removed);
    }
  }

  /** The dividing branch of an iteration keeps the invariant. */
  lemma DivideKeepsInv(n: int, t: Trial, removed: seq<int>)
    requires Inv(n, t, removed) && t.value % t.divisor == 0
    ensures Inv(n, Trial(t.value / t.divisor, t.divisor, t.divisor), removed + [t.divisor])
  {
    var d, v := t.divisor, t.value;
    var w := v / d;
    ExactQuotient(v, d);
    DivisorFoundIsPrime(v, d);
    AppendFactor(n, removed, d, v, w);
    DivideKeepsNoSmallDivisor(v, d, w);
    DivideKeepsCover(n, t.largest, d, v, w);
    var removed' := removed + [d];
    assert removed'[|removed'| - 1] == d;
  }

  /** A number divisible by `d` is `d` times its quotient, which is positive when it is. */
  lemma ExactQuotient(v: int, d: int)
    requires v >= 1 && d >= 1 && v % d == 0
    ensures v == d * (v / d) && v == (v / d) * d && v / d >= 1
  {
  }

  /** Appending the prime `d`, no smaller than any removed factor, to the
      removed factors keeps them prime and ordered, and keeps `n` their product
      times what is left. */
  lemma AppendFactor(n: int, removed: seq<int>, d: int, v: int, w: int)
    requires IsPrime(d) && v == d * w && n == Product(removed) * v
    requires forall i :: 0 <= i < |removed| ==> IsPrime(removed[i]) && removed[i] <= d
    requires forall i, j :: 0 <= i < j < |removed| ==> removed[i] <= removed[j]
    ensures n == Product(removed + [d]) * w
    ensures forall i :: 0 <= i < |removed| + 1 ==> IsPrime((removed + [d])[i]) && (removed + [d])[i] <= d
    ensures forall i, j :: 0 <= i < j < |removed| + 1 ==> (removed + [d])[i] <= (removed + [d])[j]
  {
    var removed' := removed + [d];
    assert removed'[..|removed'| - 1] == removed;
    var p := Product(removed);
    assert Product(removed') == p * d;
    MulAssoc(p, d, w);
  }

  /** Dividing `v` by `d` keeps "no divisor in `[2, d)`". */
  lemma DivideKeepsNoSmallDivisor(v: int, d: int, w: int)
    requires d >= 2 && v == w * d
    requires forall e :: 2 <= e < d ==> v % e != 0
    ensures forall e :: 2 <= e < d ==> w % e != 0
  {
    forall e | 2 <= e < d
      ensures w % e != 0
    {
      if w % e == 0 {
        DividesMul(e, w, d);
      }
    }
  }

  /** Dividing the prime `d` out of `v` keeps "every prime divisor of `n` is
      covered by `largest` or still divides what is left", with `d` as the new
      `largest`. */
  lemma DivideKeepsCover(n: int, largest: int, d: int, v: int, w: int)
    requires IsPrime(d) && largest <= d && v == d * w
    requires forall q :: IsPrime(q) && n % q == 0 ==> q <= largest || v % q == 0
    ensures forall q :: IsPrime(q) && n % q == 0 ==> q <= d || w % q == 0
  {
    forall q | IsPrime(q) && n % q == 0
      ensures q <= d || w % q == 0
    {
      if !(q <= largest) {
        Euclid(q, d, w);
        if d % q == 0 {
          DivisorAtMost(d, q);
        }
      }
    }
  }

  lemma MulAssoc(a: int, b: int, c: int)
    ensures a * (b * c) == (a * b) * c
  {
  }

  /** `Product(s)` is a multiple of the last factor of `s`. */
  lemma ProductHasLast(s: seq<int>)
    requires s != [] && s[|s| - 1] > 0
    ensures Product(s) % s[|s| - 1] == 0
  {
    MulMod(s[|s| - 1], Product(s[..|s| - 1]));
  }

  /** Once the loop guard fails, the invariant makes the sent value the largest
      prime divisor of the input. */
  lemma OutcomeAtExit(n: int, t: Trial, removed: seq<int>)
    requires Inv(n, t, removed) && !Searching(t)
    ensures Outcome(t) == LargestPrimeDivisor(n)
  {
    if t.value > 1 {
      var v, p := t.value, Product(removed);
      MulMod(v, p);
      assert n % v == 0 by {
        assert n == v * p;
      }
      ResidueIsLargest(n, v, t.divisor, t.largest);
    } else if removed != [] {
      LastFactorIsLargest(n, t, removed);
    }
  }

  /** When nothing is left to factor, the last factor removed is the largest
      prime divisor of `n`. */
  lemma LastFactorIsLargest(n: int, t: Trial, removed: seq<int>)
    requires Inv(n, t, removed) && t.value == 1 && removed != []
    ensures LargestPrimeDivisor(n) == t.largest
  {
    var p := removed[|removed| - 1];
    assert IsPrime(p);
    ProductHasLast(removed);
    assert n == Product(removed);
    forall q | IsPrime(q) && n % q == 0
      ensures q <= p
    {
      assert t.value % q != 0;
    }
    LargestPrimeDivisorUnique(n, p);
  }

  /** A residue above 1 whose square root is below the candidate is prime, and
      it is the largest prime divisor of `n`. */
  lemma ResidueIsLargest(n: int, v: int, c: int, largest: int)
    requires n >= 1 && v >= 2 && c >= 2 && c * c > v && n % v == 0 && largest <= c
    requires forall d :: 2 <= d < c ==> v % d != 0
    requires forall q :: IsPrime(q) && n % q == 0 ==> q <= largest || v % q == 0
    ensures LargestPrimeDivisor(n) == v
  {
    NoSmallDivisorMeansPrime(v, c);
    assert v % v == 0;
    forall q | IsPrime(q) && n % q == 0
      ensures q <= v
    {
      if v % q == 0 {
        DivisorAtMost(v, q);
      }
    }
    LargestPrimeDivisorUnique(n, v);
  }

  /** Running the loop to its exit from any state that keeps the invariant
      sends the largest prime divisor of the input. */
  lemma {:induction false} CompleteFindsLargestPrimeDivisor(n: int, t: Trial, removed: seq<int>)
    requires Inv(n, t, removed)
    ensures Outcome(Complete(t)) == LargestPrimeDivisor(n)
    decreases t.value, t.value - t.divisor + 1
  {
    if Searching(t) {
      NextKeepsInv(n, t, removed);
      CompleteFindsLargestPrimeDivisor(n, Next(t), DividedOut(t, removed));
    } else {
      OutcomeAtExit(n, t, removed);
    }
  }

  /** A turn of `a` iterations followed by a turn of `b` iterations is the same
      as one turn of `a + b` iterations: the fields carry the whole computation
      across a yield. */
  lemma {:induction false} AdvanceSplit(t: Trial, a: nat, b: nat)
    requires WellFormed(t)
    ensures Advance(Advance(t, a), b) == Advance(t, a + b)
    decreases a
  {
    if a > 0 && Searching(t) {
      AdvanceSplit(Next(t), a - 1, b);
    }
  }

  /** Finishing the loop after a turn that yielded gives what finishing it in
      one go gives. */
  lemma {:induction false} CompleteAfterAdvance(t: Trial, k: nat)
    requires WellFormed(t)
    ensures Complete(Advance(t, k)) == Complete(t)
    decreases k
  {
    if k > 0 && Searching(t) {
      CompleteAfterAdvance(Next(t), k - 1);
    }
  }

  /** A turn of at most `k` iterations uses up `k` of the remaining iterations,
      or all of them when fewer are left; in particular a turn that runs at
      least one iteration brings the loop strictly closer to its exit. */
  lemma {:induction false} AdvanceConsumes(t: Trial, k: nat)
    requires WellFormed(t)
    ensures Remaining(Advance(t, k)) == if k <= Remaining(t) then Remaining(t) - k else 0
    decreases k
  {
    if k > 0 && Searching(t) {
      AdvanceConsumes(Next(t), k - 1);
    }
  }

  /** Input 1 is sent as 1: the loop never runs and the residue is not above 1. */
  lemma WorkerResultOfOne()
    ensures WorkerResult(1) == 1
  {
  }

  /** A prime input is sent unchanged. */
  lemma WorkerResultOfPrime(p: int)
    requires IsPrime(p)
    ensures WorkerResult(p) == p
  {
    WorkerResultIsLargestPrimeDivisor(p);
    LargestPrimeDivisorOfPrime(p);
  }

  /** Re-running the worker on its own result gives that result again: for a
      positive input the result is 1 or a prime, for a non-positive input it
      is the input itself. */
  lemma WorkerResultIdempotent(n: int)
    ensures WorkerResult(WorkerResult(n)) == WorkerResult(n)
  {
    if n > 1 {
      WorkerResultIsLargestPrimeDivisor(n);
      WorkerResultOfPrime(LargestPrimeDivisor(n));
    }
  }
}
