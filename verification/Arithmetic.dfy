/** A minimum, and the few facts about division the solver is not asked to find by itself. */
module Arithmetic {
  function Min(a: nat, b: nat): nat {
    if a < b then a else b
  }

  lemma MulLarge(d: int, x: int)
    requires d > 0
    ensures x >= 1 ==> d * x >= d
    ensures x <= -1 ==> d * x <= -d
  {
    if x >= 1 {
      assert d * x == d + d * (x - 1);
    } else if x <= -1 {
      assert d * x == -d + d * (x + 1);
    }
  }

  lemma QuotientIs(v: int, d: int, q: int, r: int)
    requires 0 <= r < d && v == d * q + r
    ensures v / d == q && v % d == r
  {
    var k := v / d;
    MulLarge(d, k - q);
    assert d * (k - q) == d * k - d * q;
  }

  lemma DivDiv(v: nat, a: nat)
    requires a > 0
    ensures v / a / 256 == v / (256 * a)
  {
    var q, r := v / a, v % a;
    var q', r' := q / 256, q % 256;
    Recompose(v, a, q, r, q', r');
    QuotientIs(v, 256 * a, q', a * r' + r);
  }

  lemma Recompose(v: nat, a: nat, q: nat, r: nat, q': nat, r': nat)
    requires v == a * q + r && r < a && q == 256 * q' + r' && r' < 256
    ensures v == (256 * a) * q' + (a * r' + r) && a * r' + r < 256 * a
  {
    assert a * q == a * (256 * q') + a * r';
    MulLarge(a, 256 - r');
    assert a * (256 - r') == a * 256 - a * r';
  }

  function Quotient(v: nat, d: nat): nat
    requires d > 0
  {
    MulLarge(d, v / d);
    v / d
  }

  /** Reducing modulo a multiple of m first makes no difference modulo m. */
  lemma ModOfMod(y: int, m: int, c: int)
    requires m > 0 && c > 0
    ensures m * c > 0 && (y % (m * c)) % m == y % m
  {
    MulLarge(m, c);
    var w, q := y % (m * c), y / (m * c);
    assert y == (m * c) * q + w;
    assert (m * c) * q == m * (c * q);
    assert y == m * (c * q + w / m) + w % m by {
      assert m * (c * q + w / m) == m * (c * q) + m * (w / m);
    }
    QuotientIs(y, m, c * q + w / m, w % m);
  }

  function Pow2(n: nat): (p: nat)
    ensures p > 0
  {
    if n == 0 then 1 else 2 * Pow2(n - 1)
  }

  lemma Pow2Values()
    ensures Pow2(0) == 1 && Pow2(2) == 4 && Pow2(4) == 16 && Pow2(6) == 64 && Pow2(8) == 256
  {
    assert Pow2(3) == 8 && Pow2(5) == 32 && Pow2(7) == 128;
  }

  lemma {:induction false} Pow2Add(a: nat, b: nat)
    ensures Pow2(a + b) == Pow2(a) * Pow2(b)
  {
    if a > 0 {
      Pow2Add(a - 1, b);
      DoubleTimes(Pow2(a - 1), Pow2(b));
    }
  }

  lemma DoubleTimes(x: int, y: int)
    ensures 2 * x * y == 2 * (x * y)
  {
  }

  /** Bit k of a number, counted from the lowest. */
  function BitAt(x: nat, k: nat): nat {
    if k == 0 then x % 2 else BitAt(x / 2, k - 1)
  }

  const WORD: int := 0x1_0000_0000

  lemma Pow2Word()
    ensures Pow2(32) == WORD
  {
    Pow2Add(16, 16);
    Pow2Add(8, 8);
    Pow2Values();
  }

  lemma Recombine(buffer: nat, p: nat, q: nat, k: nat, r: nat, b: nat)
    requires p > 0 && buffer == q * k + r && r < q && b < p
    ensures buffer * p + b == (p * q) * k + (r * p + b) && 0 <= r * p + b < p * q
  {
    assert buffer * p == (q * k) * p + r * p;
    assert (q * k) * p == (p * q) * k;
    MulLarge(p, q - r);
    assert p * (q - r) == p * q - r * p;
  }

  lemma ShiftInMod(buffer: nat, b: nat, p: nat, q: nat, c: nat)
    requires p > 0 && q > 0 && c > 0 && b < p
    ensures p * q > 0 && p * q * c > 0 && (buffer * p + b) % (p * q * c) % (p * q) == buffer % q * p + b
  {
    var y, k, r := buffer * p + b, buffer / q, buffer % q;
    Recombine(buffer, p, q, k, r, b);
    ModOfMod(y, p * q, c);
    QuotientIs(y, p * q, k, r * p + b);
  }

  /** Shifting n bits in keeps the pending bits above them, although the word wraps. */
  lemma ShiftIn(buffer: nat, b: nat, n: nat, pending: nat)
    requires n + pending <= 32 && b < Pow2(n)
    ensures (buffer * Pow2(n) + b) % WORD % Pow2(n + pending) == buffer % Pow2(pending) * Pow2(n) + b
  {
    ShiftInMod(buffer, b, Pow2(n), Pow2(pending), Pow2(32 - n - pending));
    Pow2Add(n, pending);
    Pow2Add(n + pending, 32 - n - pending);
    Pow2Word();
  }

  lemma QuotientBelow(v: nat, a: nat, b: nat)
    requires a > 0 && v < a * b
    ensures 0 <= v / a < b
  {
    MulLarge(a, v / a - b);
    MulLarge(a, v / a);
    assert a * (v / a - b) == a * (v / a) - a * b;
  }

  lemma WindowMod(w: nat, a: nat, b: nat)
    requires a > 0 && b > 0
    ensures a * b > 0 && w / a % b == w % (a * b) / a
  {
    MulLarge(a, b);
    var v, q := w % (a * b), w / (a * b);
    Nested(w, a, b, q, v);
    QuotientIs(w, a, b * q + v / a, v % a);
    QuotientBelow(v, a, b);
    QuotientIs(w / a, b, q, v / a);
  }

  lemma Nested(w: nat, a: nat, b: nat, q: nat, v: nat)
    requires a > 0 && w == (a * b) * q + v
    ensures w == a * (b * q + v / a) + v % a
  {
    assert (a * b) * q == a * (b * q);
    assert a * (b * q + v / a) == a * (b * q) + a * (v / a);
  }

  /** Bits s to s + k of a word depend only on its bits below s + k. */
  lemma WindowLow(w: nat, s: nat, k: nat)
    ensures w / Pow2(s) % Pow2(k) == w % Pow2(s + k) / Pow2(s)
  {
    WindowMod(w, Pow2(s), Pow2(k));
    Pow2Add(s, k);
  }

  lemma ModLow(w: nat, low: nat, total: nat)
    requires low <= total
    ensures w % Pow2(total) % Pow2(low) == w % Pow2(low)
  {
    ModOfMod(w, Pow2(low), Pow2(total - low));
    Pow2Add(low, total - low);
  }
}
