/** Polynomials over the field of two elements, as the list of their coefficients, the highest power first. */
module Polynomials {

  type Poly = seq<bool>

  function Zeros(n: nat): (z: Poly)
    ensures |z| == n && forall i :: 0 <= i < n ==> !z[i]
  {
    seq(n, _ => false)
  }

  /** The sum, which is also the difference. */
  function Sum(a: Poly, b: Poly): (s: Poly)
    requires |a| == |b|
    ensures |s| == |a| && forall i :: 0 <= i < |a| ==> s[i] == (a[i] != b[i])
  {
    seq(|a|, i requires 0 <= i < |a| => a[i] != b[i])
  }

  lemma SumFirst(a: bool, b: bool, s: Poly, t: Poly)
    requires |s| == |t|
    ensures Sum([a] + s, [b] + t) == [a != b] + Sum(s, t)
  {
  }

  function Scaled(b: bool, g: Poly): (s: Poly)
    ensures |s| == |g| && forall i :: 0 <= i < |g| ==> s[i] == (b && g[i])
  {
    if b then g else Zeros(|g|)
  }

  /** The product, term by term of `q`. */
  function Times(q: Poly, g: Poly): (p: Poly)
    requires g != []
    ensures |p| == |q| + |g| - 1
    decreases |q|
  {
    if q == [] then Zeros(|g| - 1)
    else Sum(Scaled(q[0], g) + Zeros(|q| - 1), [false] + Times(q[1..], g))
  }

  /** `p` divided by `g` is `q`, and leaves `r`, which is of lower degree than `g`. */
  ghost predicate Division(p: Poly, g: Poly, q: Poly, r: Poly) {
    && g != [] && |r| == |g| - 1
    && |p| == |q| + |r|
    && p == Sum(Times(q, g), Zeros(|q|) + r)
  }

  ghost predicate Remainder(p: Poly, g: Poly, r: Poly) {
    exists q :: Division(p, g, q, r)
  }

  /** The polynomial whose coefficients are the `n` lowest bits of a number, the lowest bit for the highest power. */
  function Reflected(x: nat, n: nat): (p: Poly)
    ensures |p| == n
    decreases n
  {
    if n == 0 then [] else [x % 2 == 1] + Reflected(x / 2, n - 1)
  }

  /** The same, with the lowest bit for the constant term. */
  function Plain(x: nat, n: nat): (p: Poly)
    ensures |p| == n
    decreases n
  {
    if n == 0 then [] else Plain(x / 2, n - 1) + [x % 2 == 1]
  }

  function PowerOfTwo(n: nat): (p: nat)
    ensures p > 0
  {
    if n == 0 then 1 else 2 * PowerOfTwo(n - 1)
  }

  lemma Doubled(a: nat, b: nat, c: nat)
    requires c == a * b
    ensures 2 * c == (2 * a) * b
  {
  }

  lemma Halves(low: nat, rest: nat)
    ensures (low + 2 * rest) % 2 == low % 2 && (low + 2 * rest) / 2 == low / 2 + rest
  {
  }

  lemma {:induction false} PowersMultiply(m: nat, n: nat)
    ensures PowerOfTwo(m + n) == PowerOfTwo(m) * PowerOfTwo(n)
    decreases m
  {
    if m > 0 {
      PowersMultiply(m - 1, n);
      Doubled(PowerOfTwo(m - 1), PowerOfTwo(n), PowerOfTwo(m - 1 + n));
    }
  }

  lemma WordPower()
    ensures PowerOfTwo(32) == 0x1_0000_0000
  {
    BytePower();
    hide PowerOfTwo;
    PowersMultiply(8, 8);
    PowersMultiply(16, 16);
  }

  lemma BytePower()
    ensures PowerOfTwo(8) == 0x100
  {
  }

  /** All bits turned over. */
  lemma {:induction false} ReflectedComplement(x: nat, n: nat)
    requires x < PowerOfTwo(n)
    ensures Reflected(PowerOfTwo(n) - 1 - x, n) == Sum(Reflected(x, n), Reflected(PowerOfTwo(n) - 1, n))
    decreases n
  {
    if n > 0 {
      var (y, ones) := (PowerOfTwo(n) - 1 - x, PowerOfTwo(n) - 1);
      assert y / 2 == PowerOfTwo(n - 1) - 1 - x / 2 && ones / 2 == PowerOfTwo(n - 1) - 1;
      ReflectedComplement(x / 2, n - 1);
      SumFirst(x % 2 == 1, ones % 2 == 1, Reflected(x / 2, n - 1), Reflected(ones / 2, n - 1));
    }
  }

  /** A number whose bits are those of two put one above the other. */
  lemma {:induction false} ReflectedSplit(low: nat, high: nat, m: nat, n: nat)
    requires low < PowerOfTwo(m)
    ensures Reflected(low + PowerOfTwo(m) * high, m + n) == Reflected(low, m) + Reflected(high, n)
    decreases m
  {
    if m > 0 {
      var rest := PowerOfTwo(m - 1) * high;
      Doubled(PowerOfTwo(m - 1), high, rest);
      Halves(low, rest);
      ReflectedSplit(low / 2, high, m - 1, n);
    }
  }

  lemma {:induction false} PlainSplit(low: nat, high: nat, m: nat, n: nat)
    requires low < PowerOfTwo(m)
    ensures Plain(low + PowerOfTwo(m) * high, n + m) == Plain(high, n) + Plain(low, m)
    decreases m
  {
    if m > 0 {
      var rest := PowerOfTwo(m - 1) * high;
      Doubled(PowerOfTwo(m - 1), high, rest);
      Halves(low, rest);
      PlainSplit(low / 2, high, m - 1, n);
    }
  }

  /** One step of long division, on coefficients. */
  lemma DivisionStep(p: Poly, g: Poly, b: bool, rest: Poly, q: Poly, r: Poly)
    requires g != [] && |r| == |g| - 1 && |rest| == |q| + |r| && |p| == |rest| + 1
    requires p == Sum(Scaled(b, g) + Zeros(|q|), [false] + rest)
    ensures Division(p, g, [b] + q, r) <==> Division(rest, g, q, r)
  {
    hide Times;
    var more := [b] + q;
    assert more[1..] == q;
    TimesMore(b, q, g);
    var (whole, part) := (Sum(Times(more, g), Zeros(|more|) + r), Sum(Times(q, g), Zeros(|q|) + r));
    assert forall i :: 0 <= i < |p| ==>
      p[i] == ((Scaled(b, g) + Zeros(|q|))[i] != ([false] + rest)[i])
      && whole[i] == ((Scaled(b, g) + Zeros(|q|))[i] != ([false] + part)[i]);
    if p == whole {
      forall i | 0 <= i < |rest| ensures rest[i] == part[i] {
        assert p[i + 1] == whole[i + 1];
        assert ([false] + rest)[i + 1] == rest[i] && ([false] + part)[i + 1] == part[i];
      }
    }
    if rest == part {
      assert p == whole;
    }
  }

  lemma TimesMore(b: bool, q: Poly, g: Poly)
    requires g != []
    ensures Times([b] + q, g) == Sum(Scaled(b, g) + Zeros(|q|), [false] + Times(q, g))
  {
    assert ([b] + q)[1..] == q;
  }

  /** The first coefficient of the quotient is that of the dividend. */
  lemma FirstOfQuotient(p: Poly, g: Poly, q: Poly, r: Poly)
    requires Division(p, g, q, r) && q != [] && g[0]
    ensures p[0] == q[0]
  {
  }

  /** Quotient and remainder are determined by dividend and divisor. */
  lemma {:induction false} DivisionUnique(p: Poly, g: Poly, q: Poly, r: Poly, q': Poly, r': Poly)
    requires Division(p, g, q, r) && Division(p, g, q', r') && g[0]
    ensures q == q' && r == r'
    decreases |q|
  {
    if q == [] {
      forall i | 0 <= i < |r| ensures r[i] == r'[i] {
        assert p[i] == Sum(Times(q, g), Zeros(|q|) + r)[i] == Sum(Times(q', g), Zeros(|q'|) + r')[i];
      }
    } else {
      hide Division, Times;
      FirstOfQuotient(p, g, q, r);
      FirstOfQuotient(p, g, q', r');
      var rest := Remaining(p, g, q, r);
      assert q == [q[0]] + q[1..] && q' == [q'[0]] + q'[1..];
      DivisionStep(p, g, q[0], rest, q[1..], r);
      DivisionStep(p, g, q[0], rest, q'[1..], r');
      DivisionUnique(rest, g, q[1..], r, q'[1..], r');
    }
  }

  lemma RemainderUnique(p: Poly, g: Poly, r: Poly, r': Poly)
    requires Remainder(p, g, r) && Remainder(p, g, r') && g != [] && g[0]
    ensures r == r'
  {
    hide Division;
    var q :| Division(p, g, q, r);
    var q' :| Division(p, g, q', r');
    DivisionUnique(p, g, q, r, q', r');
  }

  /** What long division goes on with after its first step. */
  lemma Remaining(p: Poly, g: Poly, q: Poly, r: Poly) returns (rest: Poly)
    requires Division(p, g, q, r) && q != []
    ensures |rest| == |p| - 1 && p == Sum(Scaled(q[0], g) + Zeros(|q| - 1), [false] + rest)
  {
    var (n, s) := (|q| - 1, Scaled(q[0], g) + Zeros(|q| - 1));
    rest := Sum(Times(q[1..], g), Zeros(n) + r);
    var whole := Sum(s, [false] + rest);
    forall i | 0 <= i < |p| ensures p[i] == whole[i] {
      assert (Zeros(|q|) + r)[i] == ([false] + (Zeros(n) + r))[i];
    }
  }
}
