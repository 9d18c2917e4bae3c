/** The progress counter of a verification run. */
module Progress {

  /** The completed share of `total` after `processed` items, in hundredths
      of a percent, rounded half up. */
  function Pct(processed: nat, total: nat): int
    requires total > 0
  {
    (20000 * processed + total) / (2 * total)
  }

  /** Integer division by a positive divisor is monotone. */
  lemma DivMonotone(x: int, y: int, d: int)
    requires 0 <= x <= y && d > 0
    ensures x / d <= y / d
  {
    var qx, qy := x / d, y / d;
    assert qx * d + x % d == x && qy * d + y % d == y;
    if qy < qx {
      assert (qy + 1) * d <= qx * d by {
        MulMonotone(qy + 1, qx, d);
      }
    }
  }

  /** Multiplication by a positive factor is monotone. */
  lemma MulMonotone(a: int, b: int, d: int)
    requires a <= b && d > 0
    ensures a * d <= b * d
  {
    assert b * d - a * d == (b - a) * d;
  }

  /** The percentage never drops as more items are processed. */
  lemma PctMonotone(a: nat, b: nat, total: nat)
    requires a <= b && total > 0
    ensures Pct(a, total) <= Pct(b, total)
  {
    DivMonotone(20000 * a + total, 20000 * b + total, 2 * total);
  }

  /** Nothing processed is 0%; everything processed is exactly 100%. */
  lemma PctBounds(total: nat)
    requires total > 0
    ensures Pct(0, total) == 0
    ensures Pct(total, total) == 10000
  {
    var d := 2 * total;
    assert 20001 * total == 10000 * d + total;
    assert 0 <= total < d;
    DivExact(20001 * total, d, 10000, total);
    DivExact(total, d, 0, total);
  }

  /** `q * d + r` divided by `d` is `q` when `0 <= r < d`. */
  lemma DivExact(x: int, d: int, q: int, r: int)
    requires d > 0 && 0 <= r < d && x == q * d + r
    ensures x / d == q
  {
    var q', r' := x / d, x % d;
    assert q' * d + r' == q * d + r;
    if q' < q {
      MulMonotone(q' + 1, q, d);
    } else if q < q' {
      MulMonotone(q + 1, q', d);
    }
  }

  /** Each value is larger than the one before it. */
  predicate StrictlyIncreasing(s: seq<int>)
  {
    forall i, j :: 0 <= i < j < |s| ==> s[i] < s[j]
  }

  /** Counts processed items and prints the completed percentage whenever
      its rounded value changes. `printed` is the console output: the
      percentages printed so far, in order. */
  class PctLogger {
    var lastPctPrinted: int
    var numProcessed: nat
    const numTotal: nat
    var printed: seq<int>

    /** Before the first report nothing is printed and the last printed
        value is the sentinel -1; afterwards the last printed value is the
        current percentage, and the printed values strictly increase. */
    ghost predicate Valid()
      reads this
    {
      && (printed == [] ==> lastPctPrinted == -1 && numProcessed == 0)
      && (printed != [] ==> numTotal > 0 && lastPctPrinted == printed[|printed| - 1] == Pct(numProcessed, numTotal))
      && StrictlyIncreasing(printed)
    }

    constructor (numTotal: nat)
      ensures Valid()
      ensures this.numTotal == numTotal && numProcessed == 0 && lastPctPrinted == -1 && printed == []
    {
      this.lastPctPrinted := -1;
      this.numProcessed := 0;
      this.numTotal := numTotal;
      this.printed := [];
    }

    /** Adds `numNewlyProcessed` to the count and prints the new percentage
        if it differs from the last one printed. Dividing by a zero total
        fails in the source, so a total of zero is excluded. */
    method ReportProgress(numNewlyProcessed: nat)
      requires Valid() && numTotal > 0
      modifies this
      ensures Valid()
      ensures numProcessed == old(numProcessed) + numNewlyProcessed
      ensures lastPctPrinted == Pct(numProcessed, numTotal)
      ensures printed == old(printed) + (if Pct(numProcessed, numTotal) == old(lastPctPrinted) then [] else [Pct(numProcessed, numTotal)])
    {
      PctMonotone(numProcessed, numProcessed + numNewlyProcessed, numTotal);
      numProcessed := numProcessed + numNewlyProcessed;
      var pctDone := Pct(numProcessed, numTotal);
      if pctDone != lastPctPrinted {
        assert pctDone >= 0;
        printed := printed + [pctDone];
        lastPctPrinted := pctDone;
      }
    }
  }
}
