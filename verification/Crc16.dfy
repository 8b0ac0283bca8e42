/** CRC-16 as a polynomial remainder. */
module Crc16 {
  import opened Bytes
  import opened Gf2

  const POLY := 0x1021
  const G := Divisor(16, POLY)

  lemma Powers()
    ensures Pow(8) == 256 && Pow(16) == 65536 && G.Valid() && G.Full() == 0x11021
  {
    PowAdds(8, 8);
  }

  type word = c: int | 0 <= c < 65536

  /** Shifts the register left by one place and brings in a digit. */
  function CrcUpdate(crcIn: word, incr: bool): (out: nat) {
    var carry := crcIn / 32768;
    var shifted := 2 * crcIn % 65536 + if incr then 1 else 0;
    if carry != 0 then Xor(shifted, POLY) else shifted
  }

  /** One update is one step of the division by the generator polynomial. */
  lemma UpdateIsBring(c: nat, digit: nat)
    requires c < 65536 && digit < 2
    ensures G.Valid() && c < Pow(16) && CrcUpdate(c, digit == 1) == Bring(G, c, digit) < 65536
  {
    Powers();
    hide Xor;
  }

  /** The lowest `k` digits of a number, the most significant first. */
  function BitsOf(n: nat, k: nat): (d: digits)
    ensures |d| == k
  {
    if k == 0 then [] else BitsOf(n / 2, k - 1) + [n % 2]
  }

  /** The digits of a message, byte by byte, the most significant first. */
  function Bits(data: seq<byte>): (d: digits)
    ensures |d| == 8 * |data|
  {
    if data == [] then [] else Bits(data[..|data| - 1]) + BitsOf(data[|data| - 1], 8)
  }

  /** The checksum: the message and sixteen zeros run through the register. */
  function Crc(data: seq<byte>): (c: word) {
    Powers();
    Divide(G, 0, Bits(data) + Zeros(16))
  }

  lemma {:induction false} DivideStep(c: nat, d: digits, digit: nat)
    requires G.Valid() && c < Pow(16) && digit < 2
    ensures Divide(G, c, d + [digit]) == Bring(G, Divide(G, c, d), digit)
  {
    assert (d + [digit])[..|d + [digit]| - 1] == d;
  }

  /** The register after one more byte, the most significant digit first. */
  method CrcByte(crcIn: word, b: byte) returns (crc: word)
    ensures G.Valid() && crcIn < Pow(16) && crc == Divide(G, crcIn, BitsOf(b, 8))
  {
    Powers();
    hide Bring, Divide, BitsOf, Above, CrcUpdate;
    crc := crcIn;
    var i := 0x80;
    ghost var k := 0;
    DivideNothing(crcIn);
    NoBits(Above(b, 0));
    while i > 0
      invariant 0 <= k <= 8 && Mask(i, k)
      invariant crc == Divide(G, crcIn, BitsOf(Above(b, k), k))
      decreases i
    {
      ghost var before := BitsOf(Above(b, k), k);
      MaskedDigit(b, i, k);
      UpdateIsBring(crc, b / i % 2);
      DivideStep(crcIn, before, b / i % 2);
      crc := CrcUpdate(crc, b / i % 2 == 1);
      i := i / 2;
      k := k + 1;
    }
    AllAbove(b);
  }

  lemma NoBits(n: nat)
    ensures BitsOf(n, 0) == []
  {
  }

  lemma AllAbove(b: byte)
    ensures Above(b, 8) == b
  {
  }

  /** The mask that singles out the digit `k` places from the top. */
  predicate Mask(i: int, k: nat) {
    match k
    case 0 => i == 128
    case 1 => i == 64
    case 2 => i == 32
    case 3 => i == 16
    case 4 => i == 8
    case 5 => i == 4
    case 6 => i == 2
    case 7 => i == 1
    case _ => i == 0
  }

  /** The top `k` digits of a byte as a number. */
  function Above(b: nat, k: nat): nat
    requires k <= 8
  {
    match k
    case 0 => b / 256
    case 1 => b / 128
    case 2 => b / 64
    case 3 => b / 32
    case 4 => b / 16
    case 5 => b / 8
    case 6 => b / 4
    case 7 => b / 2
    case 8 => b
  }

  lemma MaskedDigit(b: byte, i: int, k: nat)
    requires k < 8 && Mask(i, k)
    ensures b / i % 2 < 2 && BitsOf(Above(b, k + 1), k + 1) == BitsOf(Above(b, k), k) + [b / i % 2]
  {
    assert Above(b, k + 1) / 2 == Above(b, k) && Above(b, k + 1) % 2 == b / i % 2;
  }

  /** The checksum as it is computed: byte by byte, then sixteen zeros. */
  method Compute(data: seq<byte>) returns (crc: word)
    ensures crc == Crc(data)
  {
    Powers();
    hide Bring, Divide, BitsOf;
    crc := 0;
    DivideNothing(0);
    for n := 0 to |data|
      invariant crc == Divide(G, 0, Bits(data[..n]))
    {
      assert data[..n + 1][..n] == data[..n];
      DivideSplits(G, 0, Bits(data[..n]), BitsOf(data[n], 8));
      crc := CrcByte(crc, data[n]);
    }
    assert data[..|data|] == data;
    ghost var register := crc;
    DivideNothing(register);
    for i := 0 to 16
      invariant crc == Divide(G, register, Zeros(i))
    {
      UpdateIsBring(crc, 0);
      DivideStep(register, Zeros(i), 0);
      assert Zeros(i + 1) == Zeros(i) + [0];
      crc := CrcUpdate(crc, false);
    }
    DivideSplits(G, 0, Bits(data), Zeros(16));
  }

  lemma DivideNothing(c: nat)
    requires G.Valid() && c < Pow(16)
    ensures Divide(G, c, []) == c && Divide(G, c, Zeros(0)) == c
  {
  }

  // ----- what the checksum is -------------------------------------------------------------------

  /** The checksum, and nothing else, is the remainder of the message, moved up by sixteen places, after division by the
      generator polynomial. */
  lemma CrcIsRemainder(data: seq<byte>, r: nat)
    ensures IsRemainder(Value(Bits(data) + Zeros(16)), 0x11021, 16, r) <==> r == Crc(data)
  {
    Powers();
    hide Divide, Value, IsRemainder;
    var m := Value(Bits(data) + Zeros(16));
    DivideIsRemainder(G, Bits(data) + Zeros(16));
    if IsRemainder(m, 0x11021, 16, r) {
      RemainderUnique(m, 0x11021, 16, r, Crc(data));
    }
  }

  /** Byte-wise exclusive or. */
  function XorBytes(s: seq<byte>, t: seq<byte>): (u: seq<byte>)
    requires |s| == |t|
    ensures |u| == |s|
  {
    if s == [] then []
    else
      var k := |s| - 1;
      Powers();
      XorBound(s[k], t[k], 8);
      XorBytes(s[..k], t[..k]) + [Xor(s[k], t[k])]
  }

  lemma DigitSum(d: nat, e: nat)
    requires d < 2 && e < 2
    ensures Xor(d, e) == Flip(d, e)
  {
    XorDigits(0, d, 0, e);
    XorZero(0);
  }

  lemma {:induction false} BitsAdd(a: nat, b: nat, k: nat)
    ensures BitsOf(Xor(a, b), k) == Sum(BitsOf(a, k), BitsOf(b, k))
    decreases k
  {
    hide Xor;
    if k > 0 {
      XorDigits(a / 2, a % 2, b / 2, b % 2);
      BitsAdd(a / 2, b / 2, k - 1);
      DigitSum(a % 2, b % 2);
      var x, y := BitsOf(a, k), BitsOf(b, k);
      assert x[..k - 1] == BitsOf(a / 2, k - 1) && y[..k - 1] == BitsOf(b / 2, k - 1);
    }
  }

  lemma {:induction false} SumSplits(s: digits, t: digits, u: digits, v: digits)
    requires |s| == |t| && |u| == |v|
    ensures Sum(s + u, t + v) == Sum(s, t) + Sum(u, v)
    decreases |u|
  {
    hide Xor;
    if u == [] {
      assert s + u == s && t + v == t;
    } else {
      var k := |u| - 1;
      assert (s + u)[..|s + u| - 1] == s + u[..k] && (t + v)[..|t + v| - 1] == t + v[..k];
      SumSplits(s, t, u[..k], v[..k]);
    }
  }

  lemma {:induction false} MessageBitsAdd(s: seq<byte>, t: seq<byte>)
    requires |s| == |t|
    ensures Bits(XorBytes(s, t)) == Sum(Bits(s), Bits(t))
    decreases |s|
  {
    hide Xor, BitsOf;
    if s != [] {
      var k := |s| - 1;
      MessageBitsAdd(s[..k], t[..k]);
      BitsAdd(s[k], t[k], 8);
      SumSplits(Bits(s[..k]), Bits(t[..k]), BitsOf(s[k], 8), BitsOf(t[k], 8));
      assert XorBytes(s, t)[..k] == XorBytes(s[..k], t[..k]);
    }
  }

  /** On messages of one length the checksum is linear. */
  lemma CrcIsLinear(s: seq<byte>, t: seq<byte>)
    requires |s| == |t|
    ensures Crc(XorBytes(s, t)) == Xor(Crc(s), Crc(t))
  {
    Powers();
    hide Xor, Divide, Sum, Bits, XorBytes;
    MessageBitsAdd(s, t);
    SumSplits(Bits(s), Bits(t), Zeros(16), Zeros(16));
    SumZeros(16);
    XorZero(0);
    DivideAdds(G, 0, Bits(s) + Zeros(16), 0, Bits(t) + Zeros(16));
  }

  lemma {:induction false} BitsValue(n: nat, k: nat)
    requires n < Pow(k)
    ensures Value(BitsOf(n, k)) == n
    decreases k
  {
    if k > 0 {
      BitsValue(n / 2, k - 1);
      assert BitsOf(n, k)[..k - 1] == BitsOf(n / 2, k - 1);
    }
  }

  lemma {:induction false} SumWithZeros(d: digits)
    ensures Sum(Zeros(|d|), d) == d
  {
    hide Xor;
    if d != [] {
      var k := |d| - 1;
      assert Zeros(|d|)[..k] == Zeros(k);
      SumWithZeros(d[..k]);
      XorZero(d[k]);
    }
  }

  /** The number without its lowest `k` digits. */
  function Top(n: nat, k: nat): nat {
    if k == 0 then n else Top(n / 2, k - 1)
  }

  lemma {:induction false} BitsJoin(n: nat, j: nat, k: nat)
    ensures BitsOf(n, j + k) == BitsOf(Top(n, k), j) + BitsOf(n, k)
    decreases k
  {
    if k == 0 {
      assert BitsOf(n, 0) == [];
    } else {
      BitsJoin(n / 2, j, k - 1);
    }
  }

  lemma TopByte(c: word)
    ensures Top(c, 8) == Hi(c)
  {
    var c1: nat := c / 2;
    var c2 := c1 / 2;
    var c3 := c2 / 2;
    var c4 := c3 / 2;
    assert c4 == c / 16;
    assert Top(c, 8) == Top(c2, 6) == Top(c4, 4);
    var d := c4 / 2 / 2;
    assert Top(c4, 4) == Top(d, 2) == Top(d / 2, 1) == Top(d / 2 / 2, 0);
    assert d / 2 / 2 == c4 / 16;
    assert c / 16 / 16 == c / 256 < 256;
  }

  lemma WordBits(c: word)
    ensures Bits([Hi(c), Lo(c)]) == BitsOf(c, 16)
  {
    Powers();
    hide BitsOf, Bits;
    BitsJoin(c, 8, 8);
    TopByte(c);
    LowBits(c);
    TwoBytes(Hi(c), Lo(c));
  }

  lemma TwoBytes(a: byte, b: byte)
    ensures Bits([a, b]) == BitsOf(a, 8) + BitsOf(b, 8)
  {
    hide BitsOf;
    assert [a, b][..1] == [a] && [a][..0] == [];
  }

  lemma LowBits(c: word)
    ensures BitsOf(Lo(c), 8) == BitsOf(c, 8)
  {
    Powers();
    SameLow(c, Lo(c), c / 256, 8);
  }

  /** Digits from place `k` on do not show among the lowest `k`. */
  lemma {:induction false} SameLow(n: nat, m: nat, q: nat, k: nat)
    requires n == m + q * Pow(k)
    ensures BitsOf(n, k) == BitsOf(m, k)
    decreases k
  {
    if k > 0 {
      var p := Pow(k - 1);
      Double(q, p);
      assert n == m + 2 * (q * p);
      assert n / 2 == m / 2 + q * p && n % 2 == m % 2;
      SameLow(n / 2, m / 2, q, k - 1);
    }
  }

  lemma {:induction false} BitsConcat(s: seq<byte>, t: seq<byte>)
    ensures Bits(s + t) == Bits(s) + Bits(t)
    decreases |t|
  {
    hide BitsOf;
    if t == [] {
      assert s + t == s;
    } else {
      assert (s + t)[..|s + t| - 1] == s + t[..|t| - 1];
      BitsConcat(s, t[..|t| - 1]);
    }
  }

  /** A message followed by its checksum, high byte first, leaves nothing. */
  lemma ResidueIsZero(data: seq<byte>)
    ensures Crc(data + [Hi(Crc(data)), Lo(Crc(data))]) == 0
  {
    Powers();
    hide Xor, Divide, Sum, Bits, BitsOf, Value, Bring;
    var crc := Crc(data);
    var r, c := Divide(G, 0, Bits(data)), BitsOf(crc, 16);
    DivideSplits(G, 0, Bits(data), Zeros(16));
    WordBits(crc);
    BitsConcat(data, [Hi(crc), Lo(crc)]);
    DivideSplits(G, 0, Bits(data) + c, Zeros(16));
    DivideSplits(G, 0, Bits(data), c);
    CancelledBy(r, crc);
    ZerosStay();
  }

  /** A register that sixteen zeros would turn into `crc` is emptied by the digits of `crc`. */
  lemma CancelledBy(r: nat, crc: word)
    requires G.Valid() && r < Pow(16) && crc == Divide(G, r, Zeros(16))
    ensures Divide(G, r, BitsOf(crc, 16)) == 0
  {
    Powers();
    hide Xor, Divide, Sum, BitsOf, Value, Bring;
    var c := BitsOf(crc, 16);
    SumWithZeros(c);
    XorZero(r);
    DivideAdds(G, r, Zeros(16), 0, c);
    assert Pow(0) == 1;
    DivideSmall(G, 0, c);
    BitsValue(crc, 16);
    XorSelf(crc);
  }

  lemma ZerosStay()
    ensures G.Valid() && Divide(G, 0, Zeros(16)) == 0
  {
    Powers();
    assert Pow(0) == 1;
    DivideSmall(G, 0, Zeros(16));
    ZeroValue(16);
  }

  lemma {:induction false} ZeroValue(n: nat)
    ensures Value(Zeros(n)) == 0
  {
    if n > 0 {
      ZeroValue(n - 1);
      assert Zeros(n)[..n - 1] == Zeros(n - 1);
    }
  }
}
