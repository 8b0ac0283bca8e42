/** The 16-bit Fletcher sum that closes ISB and UBX frames (both sums are kept modulo 256). */
module Fletcher {
  import opened Bytes

  /** The two running sums; `a` is the low byte of the 16-bit value. */
  datatype Sums = Sums(a: byte, b: byte) {
    function Word(): nat {
      Le16(a, b)
    }
  }

  const ZERO := Sums(0, 0)

  function Add(s: Sums, x: byte): Sums {
    var a := (s.a + x) % 256;
    Sums(a, (s.b + a) % 256)
  }

  /** The sums after the bytes of `data`, started from `init`. */
  function Fletcher16(init: Sums, data: seq<byte>): Sums {
    if data == [] then init
    else Add(Fletcher16(init, data[..|data| - 1]), data[|data| - 1])
  }

  /** A sum over a concatenation continues from the sum of the first part. */
  lemma {:induction false} SplitsOverConcatenation(init: Sums, s: seq<byte>, t: seq<byte>)
    ensures Fletcher16(init, s + t) == Fletcher16(Fletcher16(init, s), t)
    decreases |t|
  {
    if t == [] {
      assert s + t == s;
    } else {
      var t' := t[..|t| - 1];
      assert (s + t)[..|s + t| - 1] == s + t';
      SplitsOverConcatenation(init, s, t');
    }
  }

  function Mul(n: nat, x: nat): nat {
    n * x
  }

  lemma MulAdds(m: nat, n: nat, x: nat, y: nat)
    ensures Mul(m + n, x) == Mul(m, x) + Mul(n, x)
    ensures Mul(n, x + y) == Mul(n, x) + Mul(n, y)
    ensures Mul(0, x) == 0 && Mul(1, x) == x && Mul(n, 0) == 0
  {
  }

  function Plain(data: seq<byte>): nat {
    if data == [] then 0 else data[0] + Plain(data[1..])
  }

  /** Byte `i` of `n` counts `n - i` times. */
  function Weighted(data: seq<byte>): nat {
    if data == [] then 0 else Mul(|data|, data[0]) + Weighted(data[1..])
  }

  lemma {:induction false} PlainAppend(data: seq<byte>, x: byte)
    ensures Plain(data + [x]) == Plain(data) + x
  {
    if data == [] {
      assert Plain([x]) == x + Plain([x][1..]);
    } else {
      assert (data + [x])[1..] == data[1..] + [x];
      PlainAppend(data[1..], x);
    }
  }

  lemma {:induction false} WeightedAppend(data: seq<byte>, x: byte)
    ensures Weighted(data + [x]) == Weighted(data) + Plain(data) + x
  {
    hide Mul;
    if data == [] {
      MulAdds(0, 0, x, 0);
      assert Weighted([x]) == Mul(1, x) + Weighted([x][1..]);
    } else {
      assert (data + [x])[1..] == data[1..] + [x];
      WeightedAppend(data[1..], x);
      MulAdds(|data|, 1, data[0], 0);
    }
  }

  /** The plain and the weighted sum of the bytes, modulo 256, with no running state. */
  function Closed(init: Sums, data: seq<byte>): Sums {
    Sums((init.a + Plain(data)) % 256, (init.b + Mul(|data|, init.a) + Weighted(data)) % 256)
  }

  /** The incremental sums have the closed form. */
  lemma {:induction false} ClosedForm(init: Sums, data: seq<byte>)
    ensures Fletcher16(init, data) == Closed(init, data)
  {
    hide Mul, Add;
    if data == [] {
      MulAdds(0, 0, init.a, 0);
    } else {
      var d, x := data[..|data| - 1], data[|data| - 1];
      assert data == d + [x];
      ClosedForm(init, d);
      ClosedAppend(init, d, x);
    }
  }

  lemma ClosedAppend(init: Sums, d: seq<byte>, x: byte)
    ensures Closed(init, d + [x]) == Add(Closed(init, d), x)
  {
    hide Mul, Add;
    PlainAppend(d, x);
    WeightedAppend(d, x);
    MulAdds(|d|, 1, init.a, 0);
    CarrySums(init.a + Plain(d), init.b + Mul(|d|, init.a) + Weighted(d), x);
  }

  lemma CarrySums(a: nat, b: nat, x: byte)
    ensures Add(Sums(a % 256, b % 256), x) == Sums((a + x) % 256, (b + a + x) % 256)
  {
    ModSum(a, x);
    ModSum(b, (a + x) % 256);
    ModSum(a + x, b);
  }

  lemma ModSum(m: nat, n: nat)
    ensures (m % 256 + n) % 256 == (m + n) % 256
  {
  }

  lemma {:induction false} PlainConcat(s: seq<byte>, t: seq<byte>)
    ensures Plain(s + t) == Plain(s) + Plain(t)
  {
    if s == [] {
      assert s + t == t;
    } else {
      assert (s + t)[1..] == s[1..] + t;
      PlainConcat(s[1..], t);
    }
  }

  /** Changing a single byte always changes the sum. */
  lemma {:induction false} DetectsOneByte(init: Sums, s: seq<byte>, x: byte, y: byte, t: seq<byte>)
    requires x != y
    ensures Fletcher16(init, s + [x] + t) != Fletcher16(init, s + [y] + t)
  {
    forall z: byte ensures Plain(s + [z] + t) == Plain(s) + z + Plain(t) {
      PlainConcat(s + [z], t);
      PlainAppend(s, z);
    }
    ClosedForm(init, s + [x] + t);
    ClosedForm(init, s + [y] + t);
    Differ(init.a + Plain(s + [x] + t), init.a + Plain(s + [y] + t), x - y);
  }

  lemma Differ(m: nat, n: nat, d: int)
    requires m - n == d && d != 0 && -256 < d < 256
    ensures m % 256 != n % 256
  {
  }

  lemma {:induction false} WeightedConcat(s: seq<byte>, t: seq<byte>)
    ensures Weighted(s + t) == Weighted(s) + Mul(|t|, Plain(s)) + Weighted(t)
  {
    hide Mul;
    MulAdds(0, |t|, 0, 0);
    if s == [] {
      assert s + t == t;
    } else {
      assert (s + t)[1..] == s[1..] + t;
      WeightedConcat(s[1..], t);
      MulAdds(|s|, |t|, s[0], 0);
      MulAdds(0, |t|, s[0], Plain(s[1..]));
    }
  }

  lemma PairSums(u: byte, v: byte)
    ensures Plain([u, v]) == u + v && Weighted([u, v]) == 2 * u + v
  {
    assert [u, v][1..] == [v] && [v][1..] == [];
    assert Plain([v]) == v && Weighted([v]) == v;
  }

  lemma {:induction false} WeightedPair(s: seq<byte>, u: byte, v: byte, t: seq<byte>)
    ensures Weighted(s + [u, v] + t)
         == Weighted(s) + Mul(2, Plain(s)) + 2 * u + v + Mul(|t|, Plain(s) + (u + v)) + Weighted(t)
  {
    hide Mul;
    WeightedConcat(s + [u, v], t);
    WeightedConcat(s, [u, v]);
    PlainConcat(s, [u, v]);
    PairSums(u, v);
  }

  /** The sums with two bytes more. */
  lemma TwoMore(s: seq<byte>, u: byte, v: byte)
    ensures Fletcher16(ZERO, s + [u, v])
         == Sums((Plain(s) + u + v) % 256, (Weighted(s) + 2 * Plain(s) + 2 * u + v) % 256)
  {
    hide Fletcher16, Mul, Plain, Weighted;
    var w := s + [u, v];
    assert w == s + [u] + [v];
    ClosedForm(ZERO, w);
    MulAdds(0, |w|, 0, 0);
    PlainAppend(s, u);
    PlainAppend(s + [u], v);
    WeightedAppend(s, u);
    WeightedAppend(s + [u], v);
  }

  /** Swapping two neighbouring bytes that differ always changes the sum. */
  lemma {:induction false} DetectsAdjacentSwap(init: Sums, s: seq<byte>, x: byte, y: byte, t: seq<byte>)
    requires x != y
    ensures Fletcher16(init, s + [x, y] + t) != Fletcher16(init, s + [y, x] + t)
  {
    hide Mul;
    var p, q := s + [x, y] + t, s + [y, x] + t;
    WeightedPair(s, x, y, t);
    WeightedPair(s, y, x, t);
    ClosedForm(init, p);
    ClosedForm(init, q);
    assert x + y == y + x;
    Differ(init.b + Mul(|p|, init.a) + Weighted(p), init.b + Mul(|q|, init.a) + Weighted(q), x - y);
  }
}
