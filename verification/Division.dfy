/** The few facts about division by a variable that digits and phases need. */
module Division {
  lemma Scale(a: int, b: int, c: int)
    requires a >= b && c >= 0
    ensures a * c >= b * c
  {
  }

  lemma Successor(a: int, c: int)
    ensures (a + 1) * c == a * c + c
  {
  }

  lemma Quotient(v: nat, radix: int)
    requires radix > 0
    ensures v == (v / radix) * radix + v % radix && 0 <= v % radix < radix && v / radix >= 0
  {
  }

  lemma Smaller(v: nat, radix: int)
    requires radix >= 2 && v > 0
    ensures v / radix < v && (v / radix == 0 ==> v % radix == v)
  {
    Quotient(v, radix);
  }

  lemma DivideBack(a: nat, radix: int, d: int, v: nat)
    requires 0 <= d < radix && v == a * radix + d
    ensures v / radix == a && v % radix == d
  {
    var q := v / radix;
    Quotient(v, radix);
    if q >= a + 1 {
      Scale(q, a + 1, radix);
      Successor(a, radix);
    } else if q + 1 <= a {
      Scale(a, q + 1, radix);
      Successor(q, radix);
    }
  }

  /** Counting up by one either stays in the period or starts the next. */
  lemma NextRemainder(k: nat, m: int)
    requires m > 0
    ensures (k + 1) % m == if k % m + 1 == m then 0 else k % m + 1
  {
    Quotient(k, m);
    if k % m + 1 == m {
      Successor(k / m, m);
      DivideBack(k / m + 1, m, 0, k + 1);
    } else {
      DivideBack(k / m, m, k % m + 1, k + 1);
    }
  }
}
