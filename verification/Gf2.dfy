/** Polynomials over GF(2), written as the numbers whose binary digits are the coefficients. */
module Gf2 {

  function Pow(k: nat): (p: nat)
    ensures p > 0
  {
    if k == 0 then 1 else 2 * Pow(k - 1)
  }

  lemma {:induction false} PowAdds(j: nat, k: nat)
    ensures Pow(j + k) == Pow(j) * Pow(k)
  {
    if j == 0 {
    } else {
      PowAdds(j - 1, k);
      assert Pow(j + k) == 2 * Pow(j - 1 + k);
    }
  }

  lemma {:induction false} PowGrows(j: nat, k: nat)
    requires j <= k
    ensures Pow(j) <= Pow(k)
  {
    if j < k {
      PowGrows(j, k - 1);
    }
  }

  /** Addition of polynomials: exclusive or, digit by digit. */
  function Xor(a: nat, b: nat): nat {
    if a == 0 then b
    else if b == 0 then a
    else (if a % 2 == b % 2 then 0 else 1) + 2 * Xor(a / 2, b / 2)
  }

  lemma {:induction false} XorComm(a: nat, b: nat)
    ensures Xor(a, b) == Xor(b, a)
  {
    if a != 0 && b != 0 {
      XorComm(a / 2, b / 2);
    }
  }

  lemma XorZero(a: nat)
    ensures Xor(a, 0) == a && Xor(0, a) == a
  {
  }

  /** Addition of two digits, without carry. */
  function Flip(d: nat, e: nat): nat {
    if d == e then 0 else 1
  }

  /** The defining equation, also where a summand is zero. */
  lemma XorDigits(a: nat, d: nat, b: nat, e: nat)
    requires d < 2 && e < 2
    ensures Xor(2 * a + d, 2 * b + e) == 2 * Xor(a, b) + Flip(d, e)
  {
    assert (2 * a + d) / 2 == a && (2 * b + e) / 2 == b;
    assert (2 * a + d) % 2 == d && (2 * b + e) % 2 == e;
    if a == 0 {
      assert Xor(a, b) == b;
    }
  }

  lemma {:induction false} XorAssoc(a: nat, b: nat, c: nat)
    ensures Xor(Xor(a, b), c) == Xor(a, Xor(b, c))
  {
    hide Xor;
    if a == 0 || b == 0 || c == 0 {
      XorZero(a);
      XorZero(b);
      XorZero(c);
      XorZero(Xor(b, c));
      XorZero(Xor(a, b));
    } else {
      var a1, a0, b1, b0, c1, c0 := a / 2, a % 2, b / 2, b % 2, c / 2, c % 2;
      XorDigits(a1, a0, b1, b0);
      XorDigits(b1, b0, c1, c0);
      XorDigits(Xor(a1, b1), Flip(a0, b0), c1, c0);
      XorDigits(a1, a0, Xor(b1, c1), Flip(b0, c0));
      XorAssoc(a1, b1, c1);
    }
  }

  lemma {:induction false} XorSelf(a: nat)
    ensures Xor(a, a) == 0
  {
    if a != 0 {
      XorSelf(a / 2);
    }
  }

  lemma XorCancels(a: nat, b: nat)
    ensures Xor(a, Xor(a, b)) == b
    ensures Xor(Xor(b, a), a) == b
  {
    XorAssoc(a, a, b);
    XorAssoc(b, a, a);
    XorSelf(a);
  }

  /** Two sums pair up term by term. */
  lemma XorSwap(a: nat, b: nat, c: nat, d: nat)
    ensures Xor(Xor(a, b), Xor(c, d)) == Xor(Xor(a, c), Xor(b, d))
  {
    XorAssoc(a, b, Xor(c, d));
    XorAssoc(b, c, d);
    XorComm(b, c);
    XorAssoc(c, b, d);
    XorAssoc(a, c, Xor(b, d));
  }

  lemma XorDouble(a: nat, b: nat)
    ensures Xor(2 * a, 2 * b) == 2 * Xor(a, b)
  {
    XorDigits(a, 0, b, 0);
  }

  lemma {:induction false} XorBound(a: nat, b: nat, k: nat)
    requires a < Pow(k) && b < Pow(k)
    ensures Xor(a, b) < Pow(k)
  {
    if k > 0 {
      XorDigits(a / 2, a % 2, b / 2, b % 2);
      XorBound(a / 2, b / 2, k - 1);
    }
  }

  /** The polynomial times the `k`-th power of the variable. */
  function Up(a: nat, k: nat): nat {
    if k == 0 then a else 2 * Up(a, k - 1)
  }

  lemma {:induction false} UpIsProduct(a: nat, k: nat)
    ensures Up(a, k) == a * Pow(k)
  {
    if k > 0 {
      UpIsProduct(a, k - 1);
      Double(a, Pow(k - 1));
    }
  }

  /** Addition works on the digits above and below position `k` separately. */
  lemma {:induction false} XorSplit(a: nat, c: nat, b: nat, d: nat, k: nat)
    requires c < Pow(k) && d < Pow(k)
    ensures Xor(Up(a, k) + c, Up(b, k) + d) == Up(Xor(a, b), k) + Xor(c, d)
  {
    hide Xor;
    if k == 0 {
      XorZero(0);
    } else {
      XorSplit(a, c / 2, b, d / 2, k - 1);
      SplitStep(Up(a, k - 1), c, Up(b, k - 1), d, Up(Xor(a, b), k - 1));
    }
  }

  lemma SplitStep(x: nat, c: nat, y: nat, d: nat, z: nat)
    requires Xor(x + c / 2, y + d / 2) == z + Xor(c / 2, d / 2)
    ensures Xor(2 * x + c, 2 * y + d) == 2 * z + Xor(c, d)
  {
    hide Xor;
    XorDigits(x + c / 2, c % 2, y + d / 2, d % 2);
    XorDigits(c / 2, c % 2, d / 2, d % 2);
    assert 2 * (x + c / 2) + c % 2 == 2 * x + c && 2 * (y + d / 2) + d % 2 == 2 * y + d;
  }

  lemma Double(a: nat, p: nat)
    ensures a * (2 * p) == 2 * (a * p)
  {
  }

  // ----- multiplication -------------------------------------------------------------------

  /** The product of two polynomials. */
  function Times(q: nat, g: nat): nat {
    if q == 0 then 0 else Xor(Pick(q % 2, g), 2 * Times(q / 2, g))
  }

  lemma TimesZero(g: nat)
    ensures Times(0, g) == 0
  {
  }

  lemma TimesDouble(q: nat, bit: nat, g: nat)
    requires bit < 2
    ensures Times(2 * q + bit, g) == Xor(Pick(bit, g), 2 * Times(q, g))
  {
    assert (2 * q + bit) / 2 == q && (2 * q + bit) % 2 == bit;
  }

  lemma {:induction false} TimesAdds(p: nat, q: nat, g: nat)
    ensures Times(Xor(p, q), g) == Xor(Times(p, g), Times(q, g))
    decreases p + q
  {
    hide Xor, Times;
    if p == 0 || q == 0 {
      XorZero(p);
      XorZero(q);
      TimesZero(g);
      XorZero(Times(p, g));
      XorZero(Times(q, g));
    } else {
      var p1, p0, q1, q0 := p / 2, p % 2, q / 2, q % 2;
      XorDigits(p1, p0, q1, q0);
      TimesAdds(p1, q1, g);
      TimesDouble(Xor(p1, q1), Flip(p0, q0), g);
      TimesDouble(p1, p0, g);
      TimesDouble(q1, q0, g);
      XorDouble(Times(p1, g), Times(q1, g));
      XorSwap(Pick(p0, g), 2 * Times(p1, g), Pick(q0, g), 2 * Times(q1, g));
      XorSelf(g);
      XorZero(0);
      XorZero(g);
    }
  }

  function Pick(digit: nat, g: nat): nat {
    if digit == 1 then g else 0
  }

  /** A multiple of a polynomial of degree `w`, other than zero, has degree at least `w`. */
  lemma {:induction false} TimesDegree(q: nat, g: nat, w: nat, l: nat)
    requires Pow(w) <= g < Pow(w + 1) && Pow(l) <= q < Pow(l + 1)
    ensures Pow(w + l) <= Times(q, g) < Pow(w + l + 1)
  {
    if l == 0 {
      assert q == 1 && Times(1, g) == Xor(g, 2 * Times(0, g));
    } else {
      TimesDegree(q / 2, g, w, l - 1);
      PowGrows(w + 1, w + l);
      LeadStays(Pick(q % 2, g), 2 * Times(q / 2, g), w + l);
    }
  }

  /** Adding a polynomial of lower degree keeps the degree. */
  lemma LeadStays(low: nat, high: nat, k: nat)
    requires low < Pow(k) <= high < Pow(k + 1)
    ensures Pow(k) <= Xor(low, high) < Pow(k + 1)
  {
    var rest := high - Pow(k);
    XorSplit(0, low, 1, rest, k);
    UpIsProduct(0, k);
    UpIsProduct(1, k);
    XorBound(low, rest, k);
  }

  lemma {:induction false} Length(q: nat) returns (l: nat)
    requires q > 0
    ensures Pow(l) <= q < Pow(l + 1)
  {
    if q == 1 {
      l := 0;
    } else {
      var h := Length(q / 2);
      l := h + 1;
    }
  }

  /** `r` is what remains of `m` after division by `g`, a polynomial of degree `w`. */
  ghost predicate IsRemainder(m: nat, g: nat, w: nat, r: nat) {
    r < Pow(w) && exists q: nat :: m == Xor(Times(q, g), r)
  }

  lemma RemainderUnique(m: nat, g: nat, w: nat, r: nat, s: nat)
    requires Pow(w) <= g < Pow(w + 1)
    requires IsRemainder(m, g, w, r) && IsRemainder(m, g, w, s)
    ensures r == s
  {
    hide Xor, Times;
    var p: nat :| m == Xor(Times(p, g), r);
    var q: nat :| m == Xor(Times(q, g), s);
    XorSwap(Times(p, g), r, Times(q, g), s);
    XorSelf(m);
    TimesAdds(p, q, g);
    var d, e := Xor(p, q), Xor(r, s);
    assert Xor(Times(d, g), e) == 0;
    XorCancels(Times(d, g), e);
    XorBound(r, s, w);
    XorZero(Times(d, g));
    XorZero(r);
    XorZero(s);
    if d > 0 {
      var l := Length(d);
      TimesDegree(d, g, w, l);
      PowGrows(w, w + l);
    } else {
      TimesZero(g);
    }
    XorCancels(r, s);
  }

  // ----- division, one digit at a time ----------------------------------------------------

  /** A monic polynomial of degree `w`, given by its terms below the leading one. */
  datatype Divisor = Divisor(w: nat, low: nat) {
    predicate Valid() {
      w > 0 && low < Pow(w)
    }

    function Full(): nat {
      Pow(w) + low
    }
  }

  /** Cancel the leading term if there is one. */
  function Cancel(g: Divisor, t: nat): (s: nat)
    requires g.Valid() && t < 2 * Pow(g.w)
    ensures s < Pow(g.w)
  {
    if t < Pow(g.w) then t
    else XorBound(t - Pow(g.w), g.low, g.w); Xor(t - Pow(g.w), g.low)
  }

  /** Bring down one digit. */
  function Bring(g: Divisor, r: nat, digit: nat): (s: nat)
    requires g.Valid() && r < Pow(g.w) && digit < 2
    ensures s < Pow(g.w)
  {
    Cancel(g, 2 * r + digit)
  }

  type digits = s: seq<nat> | forall i :: 0 <= i < |s| ==> s[i] < 2

  /** The remainder register after the digits of `m`, most significant first. */
  function Divide(g: Divisor, r: nat, m: digits): (s: nat)
    requires g.Valid() && r < Pow(g.w)
    ensures s < Pow(g.w)
  {
    if m == [] then r else Bring(g, Divide(g, r, m[..|m| - 1]), m[|m| - 1])
  }

  function Value(m: digits): nat {
    if m == [] then 0 else 2 * Value(m[..|m| - 1]) + m[|m| - 1]
  }

  lemma BringDivides(g: Divisor, q: nat, r: nat, digit: nat) returns (q': nat)
    requires g.Valid() && r < Pow(g.w) && digit < 2
    ensures 2 * Xor(Times(q, g.Full()), r) + digit == Xor(Times(q', g.Full()), Bring(g, r, digit))
  {
    hide Xor, Times;
    var f := g.Full();
    var p, t := Times(q, f), 2 * r + digit;
    assert 2 * Xor(p, r) + digit == Xor(2 * p, t) by { XorDigits(p, 0, r, digit); }
    if t < Pow(g.w) {
      q' := 2 * q;
      TimesDouble(q, 0, f);
      XorZero(2 * p);
    } else {
      q' := 2 * q + 1;
      TimesDouble(q, 1, f);
      CancelLead(g, t);
      MoveAcross(f, 2 * p, t);
    }
  }

  lemma MoveAcross(f: nat, p: nat, t: nat)
    ensures Xor(p, t) == Xor(Xor(f, p), Xor(f, t))
  {
    hide Xor;
    XorSwap(f, p, f, t);
    XorSelf(f);
    XorZero(Xor(p, t));
  }

  lemma CancelLead(g: Divisor, t: nat)
    requires g.Valid() && Pow(g.w) <= t < 2 * Pow(g.w)
    ensures Xor(t - Pow(g.w), g.low) == Xor(g.Full(), t)
  {
    hide Xor;
    var u := t - Pow(g.w);
    XorSplit(1, g.low, 1, u, g.w);
    XorSelf(1);
    UpIsProduct(0, g.w);
    UpIsProduct(1, g.w);
    XorComm(g.low, u);
  }

  /** The register holds the remainder of the number read so far. */
  lemma {:induction false} DivideIsRemainder(g: Divisor, m: digits)
    requires g.Valid()
    ensures IsRemainder(Value(m), g.Full(), g.w, Divide(g, 0, m))
  {
    if m == [] {
      assert Value(m) == Xor(Times(0, g.Full()), 0);
    } else {
      var m' := m[..|m| - 1];
      DivideIsRemainder(g, m');
      var r := Divide(g, 0, m');
      var q: nat :| Value(m') == Xor(Times(q, g.Full()), r);
      var q' := BringDivides(g, q, r, m[|m| - 1]);
    }
  }

  lemma {:induction false} DivideSplits(g: Divisor, r: nat, s: digits, t: digits)
    requires g.Valid() && r < Pow(g.w)
    ensures Divide(g, r, s + t) == Divide(g, Divide(g, r, s), t)
    decreases |t|
  {
    if t == [] {
      assert s + t == s;
    } else {
      assert (s + t)[..|s + t| - 1] == s + t[..|t| - 1];
      DivideSplits(g, r, s, t[..|t| - 1]);
    }
  }

  lemma BringAdds(g: Divisor, r: nat, d: nat, s: nat, e: nat)
    requires g.Valid() && r < Pow(g.w) && s < Pow(g.w) && d < 2 && e < 2
    ensures Xor(r, s) < Pow(g.w) && Xor(d, e) < 2
    ensures Bring(g, Xor(r, s), Xor(d, e)) == Xor(Bring(g, r, d), Bring(g, s, e))
  {
    hide Xor, Cancel;
    XorBound(r, s, g.w);
    XorSelf(1);
    XorZero(d);
    XorZero(e);
    XorDigits(r, d, s, e);
    CancelAdds(g, 2 * r + d, 2 * s + e);
  }

  lemma CancelAdds(g: Divisor, t: nat, u: nat)
    requires g.Valid() && t < 2 * Pow(g.w) && u < 2 * Pow(g.w)
    ensures Xor(t, u) < 2 * Pow(g.w)
    ensures Cancel(g, Xor(t, u)) == Xor(Cancel(g, t), Cancel(g, u))
  {
    var p := Pow(g.w);
    hide Xor;
    XorZero(0);
    XorZero(1);
    XorZero(g.low);
    var th, uh := if t < p then 0 else 1, if u < p then 0 else 1;
    var tl, ul := t - th * p, u - uh * p;
    var v := Xor(tl, ul);
    assert v < p by { XorBound(tl, ul, g.w); }
    assert Xor(t, u) == Flip(th, uh) * p + v by {
      XorSplit(th, tl, uh, ul, g.w);
      XorSelf(1);
      UpIsProduct(0, g.w);
      UpIsProduct(1, g.w);
    }
    assert Xor(Cancel(g, t), Cancel(g, u)) == Xor(v, Xor(Pick(th, g.low), Pick(uh, g.low))) by {
      XorZero(tl);
      XorZero(ul);
      assert Cancel(g, t) == Xor(tl, Pick(th, g.low)) && Cancel(g, u) == Xor(ul, Pick(uh, g.low));
      XorSwap(tl, Pick(th, g.low), ul, Pick(uh, g.low));
    }
    XorSelf(g.low);
    XorZero(v);
  }

  function Sum(s: digits, t: digits): (u: digits)
    requires |s| == |t|
    ensures |u| == |s|
  {
    if s == [] then []
    else
      assert Pow(1) == 2 * Pow(0);
      XorBound(s[|s| - 1], t[|t| - 1], 1);
      Sum(s[..|s| - 1], t[..|t| - 1]) + [Xor(s[|s| - 1], t[|t| - 1])]
  }

  /** Division is linear in the register and in the message together. */
  lemma {:induction false} DivideAdds(g: Divisor, r: nat, m: digits, s: nat, n: digits)
    requires g.Valid() && r < Pow(g.w) && s < Pow(g.w) && |m| == |n|
    ensures Xor(r, s) < Pow(g.w)
    ensures Divide(g, Xor(r, s), Sum(m, n)) == Xor(Divide(g, r, m), Divide(g, s, n))
  {
    XorBound(r, s, g.w);
    if m != [] {
      var k := |m| - 1;
      DivideAdds(g, r, m[..k], s, n[..k]);
      BringAdds(g, Divide(g, r, m[..k]), m[k], Divide(g, s, n[..k]), n[k]);
      assert Sum(m, n)[..k] == Sum(m[..k], n[..k]);
    }
  }

  function Zeros(n: nat): (z: digits)
    ensures |z| == n && forall i :: 0 <= i < n ==> z[i] == 0
  {
    seq(n, _ => 0)
  }

  lemma {:induction false} SumZeros(n: nat)
    ensures Sum(Zeros(n), Zeros(n)) == Zeros(n)
  {
    if n > 0 {
      assert Zeros(n)[..n - 1] == Zeros(n - 1);
      SumZeros(n - 1);
    }
  }

  /** While nothing reaches the leading place, the register just collects the digits. */
  lemma {:induction false} DivideSmall(g: Divisor, r: nat, m: digits)
    requires g.Valid() && |m| <= g.w && r < Pow(g.w - |m|)
    ensures r < Pow(g.w)
    ensures Divide(g, r, m) == r * Pow(|m|) + Value(m) < Pow(g.w)
  {
    PowGrows(g.w - |m|, g.w);
    if m != [] {
      var k := |m| - 1;
      PowGrows(g.w - |m|, g.w - k);
      DivideSmall(g, r, m[..k]);
      ValueBound(m);
      Room(r, g.w - |m|, |m|);
      Double(r, Pow(k));
    }
  }

  lemma Room(r: nat, j: nat, k: nat)
    requires r < Pow(j)
    ensures r * Pow(k) + Pow(k) <= Pow(j + k)
  {
    PowAdds(j, k);
    Scale(r + 1, Pow(j), Pow(k));
    assert (r + 1) * Pow(k) == r * Pow(k) + Pow(k);
  }

  lemma Scale(a: nat, b: nat, c: nat)
    requires a <= b
    ensures a * c <= b * c
  {
  }

  lemma {:induction false} ValueBound(m: digits)
    ensures Value(m) < Pow(|m|)
  {
    if m != [] {
      ValueBound(m[..|m| - 1]);
    }
  }
}
