/** Positional notation in any base, most significant digit first. */
module Positional {
  import opened Sequences

  type byte = x: int | 0 <= x < 256

  function Pow(b: nat, e: nat): nat
  {
    if e == 0 then 1 else b * Pow(b, e - 1)
  }

  predicate Below(ds: seq<nat>, b: nat)
  {
    forall i :: 0 <= i < |ds| ==> ds[i] < b
  }

  /** The number a digit string denotes: the left fold n * b + d. */
  function Value(ds: seq<nat>, b: nat): nat
  {
    if ds == [] then 0 else Value(ds[..|ds| - 1], b) * b + ds[|ds| - 1]
  }

  /** The digits of n without leading zeros; none at all for zero. */
  function Digits(n: nat, b: nat): (ds: seq<nat>)
    requires 2 <= b
    ensures Below(ds, b)
  {
    if n == 0 then [] else
      DivShrinks(n, b);
      Digits(n / b, b) + [n % b]
  }

  /** Drops the leading occurrences of x. */
  function LStrip<T(==)>(s: seq<T>, x: T): (r: seq<T>)
    ensures |r| <= |s|
  {
    if s == [] || s[0] != x then s else LStrip(s[1..], x)
  }

  /** How often x occurs at the front of s. */
  function Leading<T(==)>(s: seq<T>, x: T): nat
  {
    |s| - |LStrip(s, x)|
  }

  function Repeat<T>(x: T, k: nat): (r: seq<T>)
    ensures |r| == k
  {
    seq(k, _ => x)
  }

  // Arithmetic -------------------------------------------------------------

  lemma MulMonotone(x: int, y: int, m: nat)
    requires x <= y
    ensures x * m <= y * m
  {
  }

  lemma DivMod(n: nat, b: nat)
    requires 0 < b
    ensures n == (n / b) * b + n % b && 0 <= n % b < b
  {
  }

  lemma DivShrinks(n: nat, b: nat)
    requires 2 <= b && 0 < n
    ensures n / b < n
  {
  }

  lemma DivModUnique(q: nat, r: nat, b: nat)
    requires r < b
    ensures (q * b + r) / b == q && (q * b + r) % b == r
  {
    var n := q * b + r;
    DivMod(n, b);
    if q + 1 <= n / b {
      MulMonotone(q + 1, n / b, b);
      assert false;
    }
    if n / b + 1 <= q {
      MulMonotone(n / b + 1, q, b);
      assert false;
    }
  }

  lemma {:induction false} PowMonotone(b: nat, i: nat, j: nat)
    requires 1 <= b && i <= j
    ensures 1 <= Pow(b, i) <= Pow(b, j)
  {
    if i < j {
      PowMonotone(b, i, j - 1);
    } else if i > 0 {
      PowMonotone(b, i - 1, j - 1);
    }
  }

  lemma {:induction false} PowBase(a: nat, b: nat, e: nat)
    requires a <= b
    ensures Pow(a, e) <= Pow(b, e)
  {
    if e > 0 {
      PowBase(a, b, e - 1);
      MulMonotone(a, b, Pow(a, e - 1));
      MulMonotone(Pow(a, e - 1), Pow(b, e - 1), b);
    }
  }

  lemma MulAssoc(x: nat, y: nat, z: nat)
    ensures x * (y * z) == (x * y) * z
  {
  }

  lemma {:induction false} PowAdd(b: nat, i: nat, j: nat)
    ensures Pow(b, i + j) == Pow(b, i) * Pow(b, j)
  {
    if i > 0 {
      PowAdd(b, i - 1, j);
      MulAssoc(b, Pow(b, i - 1), Pow(b, j));
    }
  }

  lemma {:induction false} PowPow(b: nat, m: nat, k: nat)
    ensures Pow(Pow(b, m), k) == Pow(b, m * k)
  {
    if k > 0 {
      PowPow(b, m, k - 1);
      assert m * k == m + m * (k - 1);
      PowAdd(b, m, m * (k - 1));
    }
  }

  // Values and digits ------------------------------------------------------

  lemma ValueAppend(ds: seq<nat>, d: nat, b: nat)
    ensures Value(ds + [d], b) == Value(ds, b) * b + d
  {
  }

  /** A digit is its own value, and a digit counts as many powers of the base as
      there are digits after it. */
  lemma {:induction false} ValueConcat(a: seq<nat>, ds: seq<nat>, d: nat, b: nat)
    ensures Value([d], b) == d
    ensures Value(a + ds, b) == Value(a, b) * Pow(b, |ds|) + Value(ds, b)
    decreases |ds|
  {
    assert [d][..0] == [];
    if ds == [] {
      assert a + ds == a;
    } else {
      var init, last := ds[..|ds| - 1], ds[|ds| - 1];
      ValueConcat(a, init, d, b);
      assert (a + ds)[..|a + ds| - 1] == a + init;
      ShiftOnce(Value(a, b), Pow(b, |init|), Value(init, b), b);
    }
  }

  lemma ShiftOnce(x: nat, p: nat, y: nat, b: nat)
    ensures (x * p + y) * b == x * (b * p) + y * b
  {
  }

  lemma {:induction false} ValueOfDigits(n: nat, b: nat)
    requires 2 <= b
    ensures Value(Digits(n, b), b) == n
    decreases n
  {
    if n > 0 {
      DivShrinks(n, b);
      DivMod(n, b);
      ValueOfDigits(n / b, b);
      ValueAppend(Digits(n / b, b), n % b, b);
    }
  }

  lemma DigitsAppend(q: nat, r: nat, b: nat)
    requires 2 <= b && r < b && 0 < q + r
    ensures 0 <= q * b && Digits(q * b + r, b) == Digits(q, b) + [r]
  {
    DivModUnique(q, r, b);
    MulMonotone(0, q, b);
    if q > 0 {
      MulMonotone(1, q, b);
    }
  }

  lemma {:induction false} DigitsOfValue(ds: seq<nat>, b: nat)
    requires 2 <= b && Below(ds, b)
    requires ds == [] || ds[0] != 0
    ensures Digits(Value(ds, b), b) == ds
  {
    if ds != [] {
      var init, last := ds[..|ds| - 1], ds[|ds| - 1];
      DigitsOfValue(init, b);
      DigitsAppend(Value(init, b), last, b);
      assert ds == init + [last];
    }
  }

  lemma {:induction false} DigitsStartNonZero(n: nat, b: nat)
    requires 2 <= b
    ensures var ds := Digits(n, b); ds == [] <==> n == 0
    ensures n > 0 ==> Digits(n, b)[0] != 0
    decreases n
  {
    if n > 0 {
      DivShrinks(n, b);
      DivMod(n, b);
      DigitsStartNonZero(n / b, b);
    }
  }

  /** A number of c digits lies between b^(c-1) and b^c. */
  lemma {:induction false} DigitCount(n: nat, b: nat)
    requires 2 <= b && 0 < n
    ensures var c := |Digits(n, b)|; 1 <= c && Pow(b, c - 1) <= n < Pow(b, c)
    decreases n
  {
    DivShrinks(n, b);
    DivMod(n, b);
    var q := n / b;
    assert Digits(n, b) == Digits(q, b) + [n % b];
    if q > 0 {
      DigitCount(q, b);
      PowStep(q, n % b, b, |Digits(q, b)|);
    } else {
      assert Pow(b, 1) == b * Pow(b, 0) == b;
    }
  }

  lemma PowStep(q: nat, r: nat, b: nat, c: nat)
    requires r < b && 1 <= c && Pow(b, c - 1) <= q < Pow(b, c)
    ensures Pow(b, c) <= q * b + r < Pow(b, c + 1)
  {
    MulMonotone(Pow(b, c - 1), q, b);
    MulMonotone(q + 1, Pow(b, c), b);
  }

  /** ... and the count is the only one with those bounds. */
  lemma DigitCountUnique(n: nat, b: nat, c: nat)
    requires 2 <= b && 1 <= c && Pow(b, c - 1) <= n < Pow(b, c)
    ensures |Digits(n, b)| == c
  {
    PowMonotone(b, 0, c - 1);
    DigitCount(n, b);
    var d := |Digits(n, b)|;
    if d < c {
      PowMonotone(b, d, c - 1);
    } else if c < d {
      PowMonotone(b, c, d - 1);
    }
  }

  // Leading zeros ----------------------------------------------------------

  lemma {:induction false} LeadingSplit<T>(s: seq<T>, x: T)
    ensures s == Repeat(x, Leading(s, x)) + LStrip(s, x)
    ensures LStrip(s, x) == [] || LStrip(s, x)[0] != x
  {
    if s != [] && s[0] == x {
      LeadingSplit(s[1..], x);
      JoinFirst(s, Repeat(x, Leading(s[1..], x)), LStrip(s, x));
    }
  }

  lemma {:induction false} LeadingOfPadded<T>(x: T, k: nat, s: seq<T>)
    requires s == [] || s[0] != x
    ensures LStrip(Repeat(x, k) + s, x) == s && Leading(Repeat(x, k) + s, x) == k
  {
    if k == 0 {
      assert Repeat(x, 0) + s == s;
    } else {
      LeadingOfPadded(x, k - 1, s);
      assert (Repeat(x, k) + s)[1..] == Repeat(x, k - 1) + s;
    }
  }

  lemma {:induction false} ValueIgnoresZeros(k: nat, ds: seq<nat>, b: nat)
    ensures Value(Repeat<nat>(0, k) + ds, b) == Value(ds, b)
    decreases k + |ds|
  {
    var zs := Repeat<nat>(0, k) + ds;
    if ds != [] {
      assert zs[..|zs| - 1] == Repeat<nat>(0, k) + ds[..|ds| - 1];
      ValueIgnoresZeros(k, ds[..|ds| - 1], b);
    } else if k > 0 {
      assert zs[..|zs| - 1] == Repeat<nat>(0, k - 1) + ds;
      ValueIgnoresZeros(k - 1, ds, b);
    }
  }

  // Fixed width ------------------------------------------------------------

  lemma Carry(v: nat, d: nat, b: nat, p: nat)
    requires v < p && d < b
    ensures v * b + d < b * p
  {
    MulMonotone(v + 1, p, b);
  }

  lemma {:induction false} ValueBelow(ds: seq<nat>, b: nat)
    requires Below(ds, b)
    ensures Value(ds, b) < Pow(b, |ds|)
  {
    if ds != [] {
      var init, last := ds[..|ds| - 1], ds[|ds| - 1];
      ValueBelow(init, b);
      Carry(Value(init, b), last, b, Pow(b, |init|));
    }
  }

  lemma DigitsFit(n: nat, len: nat, b: nat)
    requires 2 <= b
    ensures |Digits(n, b)| <= len <==> n < Pow(b, len)
  {
    PowMonotone(b, 0, len);
    if n > 0 {
      DigitCount(n, b);
      var c := |Digits(n, b)|;
      if c <= len {
        PowMonotone(b, c, len);
      } else {
        PowMonotone(b, len, c - 1);
      }
    }
  }

  /** The last len digits of n, with leading zeros. */
  function Fixed(n: nat, len: nat, b: nat): (ds: seq<nat>)
    requires 2 <= b
    ensures |ds| == len && Below(ds, b)
  {
    if len == 0 then [] else Fixed(n / b, len - 1, b) + [n % b]
  }

  lemma {:induction false} FixedIsPadded(n: nat, len: nat, b: nat)
    requires 2 <= b && |Digits(n, b)| <= len
    ensures Fixed(n, len, b) == Repeat<nat>(0, len - |Digits(n, b)|) + Digits(n, b)
  {
    if len > 0 {
      if n == 0 {
        DivModUnique(0, 0, b);
      } else {
        DivShrinks(n, b);
      }
      FixedIsPadded(n / b, len - 1, b);
    }
  }

  lemma ValueOfFixed(n: nat, len: nat, b: nat)
    requires 2 <= b && n < Pow(b, len)
    ensures Value(Fixed(n, len, b), b) == n
  {
    DigitsFit(n, len, b);
    FixedIsPadded(n, len, b);
    ValueIgnoresZeros(len - |Digits(n, b)|, Digits(n, b), b);
    ValueOfDigits(n, b);
  }

  lemma FixedOfValue(ds: seq<nat>, b: nat)
    requires 2 <= b && Below(ds, b)
    ensures Value(ds, b) < Pow(b, |ds|)
    ensures Fixed(Value(ds, b), |ds|, b) == ds
  {
    ValueBelow(ds, b);
    var z, core := Leading<nat>(ds, 0), LStrip<nat>(ds, 0);
    LeadingSplit<nat>(ds, 0);
    assert core == ds[z..];
    ValueIgnoresZeros(z, core, b);
    DigitsOfValue(core, b);
    FixedIsPadded(Value(ds, b), |ds|, b);
  }

  /** At exactly its digit count, the fixed form is the minimal one. */
  lemma FixedIsDigits(n: nat, b: nat)
    requires 2 <= b
    ensures n < Pow(b, |Digits(n, b)|)
    ensures Fixed(n, |Digits(n, b)|, b) == Digits(n, b)
  {
    DigitsFit(n, |Digits(n, b)|, b);
    FixedIsPadded(n, |Digits(n, b)|, b);
  }

  // Change of base ---------------------------------------------------------

  /** The digits in base c of the number ds denotes in base b, with as many
      leading zeros as ds has. */
  function Rebase(ds: seq<nat>, b: nat, c: nat): (r: seq<nat>)
    requires 2 <= c
    ensures Below(r, c)
  {
    Repeat<nat>(0, Leading<nat>(ds, 0)) + Digits(Value(ds, b), c)
  }

  /** Changing the base back recovers every digit string, zeros included. */
  lemma RebaseInverse(ds: seq<nat>, b: nat, c: nat)
    requires 2 <= b && 2 <= c && Below(ds, b)
    ensures Rebase(Rebase(ds, b, c), c, b) == ds
  {
    var z, core := Leading<nat>(ds, 0), LStrip<nat>(ds, 0);
    LeadingSplit<nat>(ds, 0);
    assert core == ds[z..];
    ValueIgnoresZeros(z, core, b);
    var v := Value(core, b);
    DigitsStartNonZero(v, c);
    LeadingOfPadded<nat>(0, z, Digits(v, c));
    ValueIgnoresZeros(z, Digits(v, c), c);
    ValueOfDigits(v, c);
    DigitsOfValue(core, b);
  }

  // Bits and bytes ---------------------------------------------------------

  /** The number of binary digits. */
  function BitLength(n: nat): nat
  {
    |Digits(n, 2)|
  }

  /** (bit_length + 7) / 8 is exactly the number of base-256 digits. */
  lemma MinimalByteLength(n: nat)
    ensures |Digits(n, 256)| == (BitLength(n) + 7) / 8
  {
    if n > 0 {
      var l := BitLength(n);
      var k := (l + 7) / 8;
      DigitCount(n, 2);
      assert Pow(2, 8) == 256;
      PowPow(2, 8, k);
      PowPow(2, 8, k - 1);
      PowMonotone(2, l, 8 * k);
      PowMonotone(2, 8 * (k - 1), l - 1);
      DigitCountUnique(n, 256, k);
    }
  }

  /** A change to base 256 as Python's to_bytes does it. */
  lemma RebaseToBytes(ds: seq<nat>, b: nat)
    ensures var n := Value(ds, b);
            var len := (BitLength(n) + 7) / 8;
            && n < Pow(256, len)
            && Rebase(ds, b, 256) == Repeat<nat>(0, Leading<nat>(ds, 0)) + Fixed(n, len, 256)
  {
    var n := Value(ds, b);
    MinimalByteLength(n);
    FixedIsDigits(n, 256);
  }
}
