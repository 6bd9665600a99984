/** How the names of the pods of a statefulset are ordered: by their ordinals as text, so ten
    comes before two. */
module SeedNames {
  import opened DataCenters
  import opened Text

  function Pow10(d: nat): (p: nat)
    ensures p >= 1
    ensures d >= 1 ==> p >= 10
  {
    if d == 0 then 1 else 10 * Pow10(d - 1)
  }

  /** The number with `k` zeros written after it. */
  function Filled(n: nat, k: nat): nat {
    if k == 0 then n else 10 * Filled(n, k - 1)
  }

  lemma {:induction false} FilledBelow(n: nat, d: nat, k: nat)
    requires n < Pow10(d)
    ensures Filled(n, k) <= Pow10(d + k) - Pow10(k)
  {
    if k > 0 {
      FilledBelow(n, d, k - 1);
    }
  }

  lemma {:induction false} SmallFilled(k: nat)
    ensures Filled(0, k) == 0 && Filled(1, k) == Pow10(k) && Filled(2, k) == 2 * Pow10(k)
  {
    if k > 0 {
      SmallFilled(k - 1);
    }
  }

  lemma {:induction false} Pow10Grows(a: nat, b: nat)
    requires a < b
    ensures 10 * Pow10(a) <= Pow10(b)
  {
    if b > a + 1 {
      Pow10Grows(a, b - 1);
    }
  }

  /******* Numbers as text *******/

  lemma {:induction false} DigitCount(n: nat)
    requires n >= 1
    ensures Pow10(|Itoa(n)| - 1) <= n < Pow10(|Itoa(n)|)
  {
    if n >= 10 {
      DigitCount(n / 10);
      assert Itoa(n) == Itoa(n / 10) + [Digit(n % 10)];
    } else {
      assert Pow10(0) == 1 && Pow10(1) == 10;
    }
  }

  lemma DigitBound(n: nat)
    ensures n < Pow10(|Itoa(n)|)
  {
    if n > 0 {
      DigitCount(n);
    }
  }

  lemma DigitsAre(n: nat, d: nat)
    requires d >= 1 && Pow10(d - 1) <= n < Pow10(d)
    ensures |Itoa(n)| == d
  {
    DigitCount(n);
    var l := |Itoa(n)|;
    if l < d {
      if l < d - 1 {
        Pow10Grows(l, d - 1);
      }
    } else if d < l {
      if d < l - 1 {
        Pow10Grows(d, l - 1);
      }
    }
  }

  lemma {:induction false} LongerIsLarger(m: nat, n: nat)
    requires m <= n
    ensures |Itoa(m)| <= |Itoa(n)|
  {
    if m >= 10 {
      LongerIsLarger(m / 10, n / 10);
    }
  }

  lemma {:induction false} LexLessExtended(a: string, b: string, c: char)
    requires |a| <= |b|
    ensures LexLess(a, b + [c]) <==> a == b || LexLess(a, b)
  {
    var x, y := b[..|a|], b[|a|..];
    assert b == x + y && b + [c] == x + (y + [c]) && a == a + "";
    LexLeReflexive(x);
    LexLessConcat(a, x, "", y + [c]);
    LexLessConcat(a, x, "", y);
    LexLeReflexive(a);
  }

  lemma {:induction false} SameLengthOrder(i: nat, j: nat)
    requires |Itoa(i)| == |Itoa(j)|
    ensures LexLess(Itoa(i), Itoa(j)) <==> i < j
  {
    if i < 10 {
      assert Itoa(i) == [Digit(i)] + "" && Itoa(j) == [Digit(j)] + "" by {
        if j >= 10 {
          NoLeadingZero(j);
        }
      }
      assert Itoa(i)[0] < Itoa(j)[0] <==> i < j;
      HeadAndTail(Itoa(i), Itoa(j));
    } else {
      assert j >= 10 by {
        NoLeadingZero(i);
      }
      SameLengthOrder(i / 10, j / 10);
      var c, d := [Digit(i % 10)], [Digit(j % 10)];
      LexLessConcat(Itoa(i / 10), Itoa(j / 10), c, d);
      assert LexLess(c, d) <==> i % 10 < j % 10;
      if Itoa(i / 10) == Itoa(j / 10) {
        ItoaInjective(i / 10, j / 10);
      }
    }
  }

  /** A number of fewer digits comes first when, filled up with zeros, it is not the larger one. */
  lemma {:induction false} ShorterOrder(i: nat, j: nat, k: nat)
    requires k >= 1 && |Itoa(j)| == |Itoa(i)| + k
    ensures LexLess(Itoa(i), Itoa(j)) <==> Filled(i, k) <= j
  {
    hide LexLess;
    assert j >= 10 && Itoa(j) == Itoa(j / 10) + [Digit(j % 10)];
    LexLessExtended(Itoa(i), Itoa(j / 10), Digit(j % 10));
    assert Filled(i, k) == 10 * Filled(i, k - 1);
    if k == 1 {
      SameLengthOrder(i, j / 10);
      if Itoa(i) == Itoa(j / 10) {
        ItoaInjective(i, j / 10);
      }
    } else {
      ShorterOrder(i, j / 10, k - 1);
    }
  }

  /******* Seeds first *******/

  lemma PodNameOrder(sts: string, i: nat, j: nat)
    ensures LexLess(PodName(sts, i), PodName(sts, j)) <==> LexLess(Itoa(i), Itoa(j))
  {
    hide Itoa;
    LexLeReflexive(sts + "-");
    LexLessConcat(sts + "-", sts + "-", Itoa(i), Itoa(j));
  }

  /** All ordinals from `seeds` on are among the last ten with `d` digits. */
  predicate AmongLastTen(seeds: nat, replicas: nat, d: nat) {
    d >= 1 && Pow10(d) - 10 <= seeds && replicas <= Pow10(d)
  }

  lemma LastTenComeLast(seeds: nat, replicas: nat, d: nat, i: nat, j: nat)
    requires AmongLastTen(seeds, replicas, d) && i < seeds <= j < replicas
    ensures LexLess(Itoa(i), Itoa(j))
  {
    hide Filled, Itoa, LexLess, Pow10;
    LongerIsLarger(i, j);
    var a, b := |Itoa(i)|, |Itoa(j)|;
    DigitBound(i);
    DigitCount(j);
    if a == b {
      SameLengthOrder(i, j);
    } else {
      ShorterOrder(i, j, b - a);
      FilledBelow(i, a, b - a);
      if b < d {
        Pow10Grows(b, d);
      } else if d < b - 1 {
        Pow10Grows(d, b - 1);
      }
      assert Pow10(b - a) >= 10 && a + (b - a) == b;
    }
  }

  lemma OneDigit(i: nat)
    requires i < 10
    ensures Itoa(i) == [Digit(i)]
  {
  }

  lemma ZeroAndOneComeFirst(i: nat, j: nat)
    requires i < 2 && i < j
    ensures LexLess(Itoa(i), Itoa(j))
  {
    hide Itoa, LexLess;
    LongerIsLarger(i, j);
    DigitCount(j);
    OneDigit(i);
    if |Itoa(j)| == 1 {
      SameLengthOrder(i, j);
    } else {
      SmallFilled(|Itoa(j)| - 1);
      ShorterOrder(i, j, |Itoa(j)| - 1);
    }
  }

  /** Two is no less than any power of ten. */
  lemma TwoComesLate(d: nat)
    requires d >= 1
    ensures !LexLess(Itoa(2), Itoa(Pow10(d)))
  {
    DigitsAre(Pow10(d), d + 1);
    assert |Itoa(2)| == 1;
    SmallFilled(d);
    ShorterOrder(2, Pow10(d), d);
  }

  /** Nines come after any longer number that is not one of the last ten. */
  lemma NinesComeLate(d: nat, j: nat)
    requires d >= 2 && Pow10(d - 1) <= j < Pow10(d) - 10
    ensures !LexLess(Itoa(Pow10(d - 1) - 1), Itoa(j))
  {
    var i := Pow10(d - 1) - 1;
    assert Pow10(d - 1) == 10 * Pow10(d - 2) && Pow10(d) == 10 * Pow10(d - 1);
    DigitsAre(i, d - 1);
    DigitsAre(j, d);
    assert Pow10(1) == 10;
    ShorterOrder(i, j, 1);
  }

  /** The exact condition for the names of a DC's seeds to come before those of its other pods: there
      are at most two seeds, or no other pods, or the others are among the last ten ordinals of
      their length, which up to a hundred pods means at most ten pods or at least ninety seeds. */
  lemma SeedNamesComeFirst(sts: string, seeds: nat, replicas: nat)
    ensures (forall i: nat, j: nat :: i < seeds <= j < replicas ==> LexLess(PodName(sts, i), PodName(sts, j)))
            <==> seeds <= 2 || replicas <= seeds || exists d :: AmongLastTen(seeds, replicas, d)
  {
    hide Itoa, PodName, LexLess;
    forall i: nat, j: nat ensures LexLess(PodName(sts, i), PodName(sts, j)) <==> LexLess(Itoa(i), Itoa(j)) {
      PodNameOrder(sts, i, j);
    }
    if seeds <= 2 {
      forall i: nat, j: nat | i < seeds <= j ensures LexLess(PodName(sts, i), PodName(sts, j)) {
        ZeroAndOneComeFirst(i, j);
      }
    } else if d :| AmongLastTen(seeds, replicas, d) {
      forall i: nat, j: nat | i < seeds <= j < replicas ensures LexLess(PodName(sts, i), PodName(sts, j)) {
        LastTenComeLast(seeds, replicas, d, i, j);
      }
    } else if seeds < replicas {
      var i, j := SeedOutOfOrder(seeds, replicas);
    }
  }

  lemma SeedOutOfOrder(seeds: nat, replicas: nat) returns (i: nat, j: nat)
    requires 3 <= seeds < replicas && forall d :: !AmongLastTen(seeds, replicas, d)
    ensures i < seeds <= j < replicas && !LexLess(Itoa(i), Itoa(j))
  {
    hide Itoa, LexLess;
    DigitCount(seeds);
    var d := |Itoa(seeds)|;
    if replicas > Pow10(d) {
      TwoComesLate(d);
      return 2, Pow10(d);
    }
    assert !AmongLastTen(seeds, replicas, d) && Pow10(1) == 10;
    NinesComeLate(d, seeds);
    return Pow10(d - 1) - 1, seeds;
  }

  /** Three seeds and eleven pods are enough: the name of the third seed comes after that of pod ten. */
  lemma ThirdSeedComesLate(sts: string)
    ensures LexLess(PodName(sts, 10), PodName(sts, 2))
  {
    PodNameOrder(sts, 10, 2);
    assert Itoa(10) == Itoa(1) + [Digit(0)];
    assert Itoa(2)[0] == '2' && Itoa(10)[0] == '1';
  }
}
