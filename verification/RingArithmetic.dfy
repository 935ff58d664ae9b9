/** Which slot and which timeline point the k-th commit of an N-slot ring gets, counted round
    by round, and the closed forms. */
module RingArithmetic {

  function SlotOf(k: nat, N: nat): (i: nat)
    requires N > 0
    ensures i < N
  {
    if k < N then k else SlotOf(k - N, N)
  }

  function PointOf(k: nat, N: nat): (p: nat)
    requires N > 0
    ensures p >= 1
  {
    if k < N then 1 else PointOf(k - N, N) + 1
  }

  // How many of the first P commits went to slot i.
  function CounterAt(P: int, i: nat, N: nat): nat
    requires N > 0
    decreases P
  {
    if P <= i then 0 else 1 + CounterAt(P - N, i, N)
  }

  // How many images an N-slot ring has created after so many resizes.
  function ImagesAfter(resizes: nat, N: nat): (n: nat)
    ensures n >= N
  {
    if resizes == 0 then N else ImagesAfter(resizes - 1, N) + N
  }

  /** N images at first and N more at every resize. */
  lemma {:induction false} ImagesClosed(resizes: nat, N: nat)
    ensures ImagesAfter(resizes, N) == N * (resizes + 1)
  {
    if resizes > 0 {
      ImagesClosed(resizes - 1, N);
    }
  }

  /** Commit k goes to slot k mod N with point k div N + 1. */
  lemma {:induction false} SlotAndPointClosed(k: nat, N: nat)
    requires N > 0
    ensures SlotOf(k, N) == k % N && PointOf(k, N) == k / N + 1
    decreases k
  {
    if k < N {
      Quotient(k, 0, N);
    } else {
      SlotAndPointClosed(k - N, N);
      Quotient(k, (k - N) / N + 1, N);
    }
  }

  /** After P commits slot i has been committed (P + N - 1 - i) div N times. */
  lemma {:induction false} CounterClosed(P: nat, i: nat, N: nat)
    requires i < N
    ensures CounterAt(P, i, N) == (P + N - 1 - i) / N
    decreases P
  {
    if P <= i {
      Quotient(P + N - 1 - i, 0, N);
    } else if P < N {
      Quotient(P + N - 1 - i, 1, N);
      assert CounterAt(P, i, N) == 1 + CounterAt(P - N, i, N) == 1;
    } else {
      CounterClosed(P - N, i, N);
      Quotient(P + N - 1 - i, (P - N + N - 1 - i) / N + 1, N);
    }
  }

  lemma Quotient(a: nat, q: nat, N: nat)
    requires N > 0 && q * N <= a < q * N + N
    ensures a / N == q && a % N == a - q * N
  {
    var d := a / N;
    assert a == d * N + a % N;
    if d < q {
      Monotone(d + 1, q, N);
    } else if d > q {
      Monotone(q + 1, d, N);
    }
  }

  lemma Monotone(a: int, b: int, N: nat)
    requires a <= b
    ensures a * N <= b * N
  {
  }

  /** Two commits share a slot and a point only if they are the same commit; a later commit of
      the same slot is at least N commits later and has a larger point. */
  lemma {:induction false} SameSlot(j: nat, k: nat, N: nat)
    requires N > 0 && j <= k && SlotOf(j, N) == SlotOf(k, N)
    ensures j == k || (j + N <= k && PointOf(j, N) < PointOf(k, N))
    decreases k
  {
    if k >= N {
      if j + N <= k {
        PointsGrow(j, k, N);
      } else if j >= N {
        SameSlot(j - N, k - N, N);
      }
    }
  }

  lemma {:induction false} PointsGrow(j: nat, k: nat, N: nat)
    requires N > 0 && j + N <= k
    ensures PointOf(j, N) < PointOf(k, N)
    decreases k
  {
    if j >= N {
      PointsGrow(j - N, k - N, N);
    }
  }

  /** The next commit goes to slot SlotOf(P), raises only that slot's counter, and gets the point
      after it. */
  lemma {:induction false} NextCommit(P: nat, i: nat, N: nat)
    requires i < N
    ensures CounterAt(P + 1, i, N) == CounterAt(P, i, N) + (if i == SlotOf(P, N) then 1 else 0)
    ensures i == SlotOf(P, N) ==> PointOf(P, N) == CounterAt(P, i, N) + 1
    decreases P
  {
    if P >= N {
      NextCommit(P - N, i, N);
    } else {
      assert CounterAt(P + 1 - N, i, N) == 0 && CounterAt(P - N, i, N) == 0;
    }
  }

  lemma {:induction false} NextSlot(P: nat, N: nat)
    requires N > 0
    ensures SlotOf(P + 1, N) == (SlotOf(P, N) + 1) % N
    decreases P
  {
    if P >= N {
      NextSlot(P - N, N);
    } else if P + 1 == N {
      assert SlotOf(N, N) == SlotOf(0, N) == 0;
    }
  }

  /** A slot that is due again was last committed exactly N commits ago. */
  lemma LastCommitOf(P: nat, N: nat)
    requires N > 0
    ensures CounterAt(P, SlotOf(P, N), N) > 0 <==> P >= N
    ensures P >= N ==> SlotOf(P - N, N) == SlotOf(P, N) && PointOf(P - N, N) == CounterAt(P, SlotOf(P, N), N)
  {
    NextCommit(P, SlotOf(P, N), N);
  }

  /** A commit's point never exceeds its slot's counter, and is below it only if the slot was
      committed again. */
  lemma {:induction false} PointBelowCounter(k: nat, P: nat, N: nat)
    requires N > 0 && k < P
    ensures PointOf(k, N) <= CounterAt(P, SlotOf(k, N), N)
    ensures PointOf(k, N) < CounterAt(P, SlotOf(k, N), N) <==> k + N < P
    decreases P
  {
    if k >= N {
      PointBelowCounter(k - N, P - N, N);
    } else {
      assert CounterAt(P, k, N) == 1 + CounterAt(P - N, k, N);
    }
  }
}
