/**
 Multiples and remainders for any divisor. The remainder is defined by subtraction, so that
 proofs about it go by the lemmas here; RemIsMod says that it is the usual one.
 */
module Division {

  function Rem(x: nat, n: nat): (r: nat)
    requires n > 0
    ensures r < n && r <= x
    decreases x
  {
    if x < n then x else Rem(x - n, n)
  }

  function Quot(x: nat, n: nat): (q: nat)
    requires n > 0
    ensures q <= x && (n > 1 && x > 0 ==> q < x)
    decreases x
  {
    if x < n then 0 else 1 + Quot(x - n, n)
  }

  /** The product by addition, for the same reason. */
  function Times(a: nat, b: nat): nat { if a == 0 then 0 else b + Times(a - 1, b) }

  lemma {:induction false} TimesIsProduct(a: nat, b: nat)
    ensures Times(a, b) == a * b
  {
    if a > 0 {
      TimesIsProduct(a - 1, b);
      assert a * b == (a - 1) * b + b;
    }
  }

  lemma {:induction false} TimesGrow(a: nat, b: nat, n: nat)
    requires a < b
    ensures Times(a, n) + n <= Times(b, n)
  {
    if a + 1 < b { TimesGrow(a, b - 1, n); }
  }

  lemma {:induction false} Grows(n: nat, a: nat, b: nat)
    requires a < b
    ensures n * a + n <= n * b
  {
    assert n * b == n * a + n * (b - a);
    var c := b - a - 1;
    assert n * (c + 1) == n * c + n;
  }

  /** A quotient and a remainder below the divisor are the quotient and the remainder. */
  lemma {:induction false} Unique(n: nat, x: nat, q: nat, r: nat)
    requires r < n && x == n * q + r
    ensures x / n == q && x % n == r
  {
    var q0, r0 := x / n, x % n;
    assert x == n * q0 + r0;
    if q0 < q { Grows(n, q0, q); } else if q < q0 { Grows(n, q, q0); }
  }

  lemma {:induction false} RemUnique(n: nat, x: nat, q: nat, r: nat)
    requires r < n && x == n * q + r
    ensures Rem(x, n) == r
    decreases q
  {
    if q > 0 {
      assert x - n == n * (q - 1) + r by { assert n * q == n * (q - 1) + n; }
      RemUnique(n, x - n, q - 1, r);
    }
  }

  lemma {:induction false} RemIsMod(x: nat, n: nat)
    requires n > 0
    ensures Rem(x, n) == x % n && x == n * (x / n) + Rem(x, n)
  {
    RemUnique(n, x, x / n, x % n);
  }

  lemma {:induction false} QuotIsDiv(x: nat, n: nat)
    requires n > 0
    ensures Quot(x, n) == x / n && Rem(x, n) == x % n && x == n * Quot(x, n) + Rem(x, n)
  {
    RemIsMod(x, n);
    QuotUnique(n, x, x / n, x % n);
  }

  lemma {:induction false} QuotUnique(n: nat, x: nat, q: nat, r: nat)
    requires r < n && x == n * q + r
    ensures Quot(x, n) == q && Rem(x, n) == r
    decreases q
  {
    if q > 0 {
      assert x - n == n * (q - 1) + r by { assert n * q == n * (q - 1) + n; }
      QuotUnique(n, x - n, q - 1, r);
    }
  }

  /** Quot is how many whole n fit into x. */
  lemma {:induction false} TimesFit(i: nat, x: nat, n: nat)
    requires n > 0
    ensures i < Quot(x, n) <==> Times(i, n) + n <= x
    decreases x
  {
    if i > 0 && x >= n { TimesFit(i - 1, x - n, n); }
  }

  /** Different multiples lie n apart. */
  lemma {:induction false} MultiplesApart(n: nat, a: nat, b: nat)
    requires n > 0 && Rem(a, n) == 0 && Rem(b, n) == 0 && a < b
    ensures a + n <= b
  {
    Room(n, a, b);
  }

  lemma {:induction false} Regrouped(w: nat, a: nat, b: nat, q1: nat, r1: nat, q2: nat, r2: nat)
    requires w == a * q1 + r1 && q1 == b * q2 + r2 && r1 < a && r2 < b
    ensures w == (a * b) * q2 + (a * r2 + r1) && a * r2 + r1 < a * b
  {
    Grows(a, r2, b);
    assert a * (b * q2 + r2) == a * (b * q2) + a * r2;
    assert a * (b * q2) == (a * b) * q2;
  }

  lemma {:induction false} QuotQuot(w: nat, a: nat, b: nat, n: nat)
    requires a > 0 && b > 0 && n == a * b && n > 0
    ensures w / a / b == w / n
  {
    var q1, r1 := w / a, w % a;
    var q2, r2 := q1 / b, q1 % b;
    assert w == a * q1 + r1;
    assert q1 == b * q2 + r2;
    Regrouped(w, a, b, q1, r1, q2, r2);
    Unique(n, w, q2, a * r2 + r1);
  }

  /** Nine bits above d are the same before and after a remainder that keeps them. */
  lemma {:induction false} NineBits(v: nat, d: nat, c: nat, n: nat)
    requires d > 0 && c > 0 && d * (c * 512) == n && n > 0
    ensures Rem(v, n) / d % 512 == v / d % 512
  {
    RemIsMod(v, n);
    var q, w := v / n, Rem(v, n);
    var x, y := w / d, c * q;
    Stacked(v, d, c, n, q, w, x, w % d, y);
    Unique(d, v, 512 * y + x, w % d);
    Unique(512, 512 * y + x, y + x / 512, x % 512);
  }

  lemma {:induction false} Stacked(v: nat, d: nat, c: nat, n: nat, q: nat, w: nat, x: nat, r: nat, y: nat)
    requires d * (c * 512) == n && v == n * q + w && w == d * x + r && y == c * q
    ensures v == d * (512 * y + x) + r
  {
    assert n * q == d * ((c * 512) * q);
    assert (c * 512) * q == 512 * y;
    assert d * (512 * y + x) == d * (512 * y) + d * x;
  }

  /** Removing a multiple changes no remainder. */
  lemma {:induction false} Shifted(n: nat, w: nat, d: nat)
    requires n > 0 && Rem(w, n) == 0
    ensures Rem(w + d, n) == Rem(d, n)
  {
    RemIsMod(w, n);
    RemIsMod(d, n);
    var a, b := w / n, d / n;
    assert w + d == n * (a + b) + Rem(d, n) by { assert n * (a + b) == n * a + n * b; }
    RemUnique(n, w + d, a + b, Rem(d, n));
  }

  lemma {:induction false} Floored(n: nat, d: nat)
    requires n > 0
    ensures Rem(d - Rem(d, n), n) == 0
  {
    RemIsMod(d, n);
    RemUnique(n, d - Rem(d, n), d / n, 0);
  }

  /** The only multiple in the n numbers up to o is o's floor. */
  lemma {:induction false} FloorOf(n: nat, i: nat, o: nat)
    requires n > 0 && Rem(i, n) == 0 && i <= o < i + n
    ensures Rem(o, n) == o - i
  {
    RemIsMod(i, n);
    RemUnique(n, o, i / n, o - i);
  }

  /** A multiple below a floor leaves room for one more n. */
  lemma {:induction false} Room(n: nat, i: nat, d: nat)
    requires n > 0 && Rem(i, n) == 0
    ensures i < d - Rem(d, n) <==> i + n <= d
    ensures i < d - Rem(d, n) ==> i + n <= d - Rem(d, n)
  {
    RemIsMod(i, n);
    RemIsMod(d, n);
    var a, b := i / n, d / n;
    if a < b { Grows(n, a, b); }
    if b <= a { assert n * b <= n * a by { if b < a { Grows(n, b, a); } } }
  }

  /** A multiple of n * k is one of n, and the floor to n * k does not see the floor to n. */
  lemma {:induction false} Coarser(n: nat, k: nat, d: nat)
    requires n > 0 && k > 0
    ensures n * k > 0
    ensures Rem(d, n * k) == 0 ==> Rem(d, n) == 0
    ensures var o := d - Rem(d, n); o - Rem(o, n * k) == d - Rem(d, n * k)
  {
    var N := n * k;
    Grows(n, 0, k);
    RemIsMod(d, N);
    var q, r := d / N, Rem(d, N);
    var w := N * q;
    assert w == n * (k * q);
    RemUnique(n, w, k * q, 0);
    Shifted(n, w, r);
    RemUnique(N, w + (r - Rem(r, n)), q, r - Rem(r, n));
  }

  /** A finite set of numbers has a number above it. */
  lemma {:induction false} AboveAll(used: set<nat>) returns (f: nat)
    ensures forall x: nat :: x in used ==> x < f
  {
    f := 0;
    var rest := used;
    while rest != {}
      invariant forall x: nat :: x in used && x !in rest ==> x < f
      decreases |rest|
    {
      var x :| x in rest;
      if x >= f { f := x + 1; }
      rest := rest - {x};
    }
  }

  lemma {:induction false} MultipleAbove(n: nat, f: nat) returns (b: nat)
    requires n > 0
    ensures Rem(b, n) == 0 && b >= f
  {
    b := n * f;
    if f > 0 { Grows(f, 0, n); }
    RemUnique(n, b, f, 0);
  }
}
