/** When the verdict on a frame depends on what lies behind it in memory. */
module Surroundings {
  import opened Bytes
  import opened Protocols
  import opened Receiver
  import opened StreamScan
  import F = Fletcher

  /** What lies behind the frame makes no difference. */
  ghost predicate OwnVerdictOnly(cfg: Config, p: Protocol, w: seq<byte>)
    requires |w| >= 2
  {
    forall a: nat -> byte, b: nat -> byte :: Judge(cfg, p, w, a) == Judge(cfg, p, w, b)
  }

  // ----- a header whose size wraps ----------------------------------------------------------------

  /** Two bytes at neighbouring addresses, and zeros. */
  function TwoAt(at: nat, u: byte, v: byte): nat -> byte {
    (i: nat) => if i == at then u else if i == at + 1 then v else 0
  }

  /** The sum covers the header's own bytes only, and the checksum lies behind them. */
  lemma NearSum(w: seq<byte>, a: nat -> byte)
    requires |w| == 7 && PayloadSize(w) >= 65530
    ensures SummedBytes(w) <= 5 && Slice(Seen(w, a), 0, SummedBytes(w)) == w[..SummedBytes(w)]
    ensures StoredChecksum(w, a) == Le16(a(6 + PayloadSize(w)), a(7 + PayloadSize(w)))
  {
    hide Le16;
  }

  lemma NearDepends(w: seq<byte>) returns (a: nat -> byte, b: nat -> byte)
    requires |w| == 7 && PayloadSize(w) >= 65530
    ensures IsbChecksumOk(w, a) && !IsbChecksumOk(w, b)
  {
    hide PayloadSize, SummedBytes, StoredChecksum, Seen, F.Fletcher16;
    var at := 6 + PayloadSize(w);
    NearSum(w, TwoAt(at, 0, 0));
    var sums := F.Fletcher16(F.ZERO, w[..SummedBytes(w)]);
    a, b := TwoAt(at, sums.a, sums.b), TwoAt(at, (sums.a + 1) % 256, sums.b);
    NearSum(w, a);
    NearSum(w, b);
  }

  lemma SliceEnds(m: nat -> byte, n: nat)
    ensures Slice(m, 0, n + 2) == Slice(m, 0, n) + [m(n), m(n + 1)]
  {
  }

  /** The sum covers nearly the whole address space, the checksum included. */
  lemma FarSum(w: seq<byte>, n: nat, u: byte, v: byte)
    requires |w| == 7 && 65528 <= PayloadSize(w) < 65530 && n == SummedBytes(w) - 2
    ensures Slice(Seen(w, TwoAt(n, u, v)), 0, SummedBytes(w)) == Slice(Seen(w, TwoAt(n, 0, 0)), 0, n) + [u, v]
    ensures StoredChecksum(w, TwoAt(n, u, v)) == 0
  {
    var m := Seen(w, TwoAt(n, u, v));
    hide PayloadSize;
    assert n > 7 + 65530;
    SliceEnds(m, n);
    assert Slice(m, 0, n) == Slice(Seen(w, TwoAt(n, 0, 0)), 0, n);
    assert m(n) == u && m(n + 1) == v;
  }

  lemma Multiple(n: nat, q: int)
    requires n == 256 * q
    ensures n % 256 == 0
  {
  }

  /** Two bytes that make the sums zero, and another second byte, which does not. */
  lemma Balance(plain: nat, weighted: nat) returns (u: byte, v: byte, x: byte)
    ensures (plain + u + v) % 256 == 0 && (weighted + 2 * plain + 2 * u + v) % 256 == 0
    ensures (plain + u + x) % 256 != 0
  {
    var s := (plain + weighted) % 256;
    u, v := if s == 0 then 0 else 256 - s, weighted % 256;
    x := if v == 255 then 0 else v + 1;
    var q, k := (plain + weighted) / 256, weighted / 256;
    var carry := if s == 0 then 0 else 1;
    assert plain + u + v == 256 * (q - k + carry);
    Multiple(plain + u + v, q - k + carry);
    assert weighted + 2 * plain + 2 * u + v == 256 * (2 * (q - k + carry) + k);
    Multiple(weighted + 2 * plain + 2 * u + v, 2 * (q - k + carry) + k);
  }

  lemma ZeroSums(s: seq<byte>, u: byte, v: byte)
    ensures F.Fletcher16(F.ZERO, s + [u, v]).Word() == 0 <==>
      (F.Plain(s) + u + v) % 256 == 0 && (F.Weighted(s) + 2 * F.Plain(s) + 2 * u + v) % 256 == 0
  {
    hide F.Fletcher16, F.Plain, F.Weighted;
    F.TwoMore(s, u, v);
  }

  lemma FarChecksum(w: seq<byte>, n: nat, s: seq<byte>, u: byte, v: byte)
    requires |w| == 7 && 65528 <= PayloadSize(w) < 65530 && n == SummedBytes(w) - 2
    requires s == Slice(Seen(w, TwoAt(n, 0, 0)), 0, n)
    ensures IsbChecksumOk(w, TwoAt(n, u, v)) <==>
      (F.Plain(s) + u + v) % 256 == 0 && (F.Weighted(s) + 2 * F.Plain(s) + 2 * u + v) % 256 == 0
  {
    hide PayloadSize, SummedBytes, StoredChecksum, Seen, TwoAt, Slice, F.Fletcher16, F.Plain, F.Weighted;
    FarSum(w, n, u, v);
    ZeroSums(s, u, v);
  }

  lemma FarDepends(w: seq<byte>) returns (a: nat -> byte, b: nat -> byte)
    requires |w| == 7 && 65528 <= PayloadSize(w) < 65530
    ensures IsbChecksumOk(w, a) && !IsbChecksumOk(w, b)
  {
    assert SummedBytes(w) >= 2;
    hide *;
    var n := SummedBytes(w) - 2;
    var s := Slice(Seen(w, TwoAt(n, 0, 0)), 0, n);
    var u, v, x := Balance(F.Plain(s), F.Weighted(s));
    FarChecksum(w, n, s, u, v);
    FarChecksum(w, n, s, u, x);
    a, b := TwoAt(n, u, v), TwoAt(n, u, x);
  }

  /** Whatever its type, a wrapped header is accepted or not by what lies behind it. */
  lemma WrappedDepends(cfg: Config, w: seq<byte>)
    requires |w| == 7 && w[1] == 0x49 && PayloadSize(w) >= 65528
    ensures !OwnVerdictOnly(cfg, Isb, w)
  {
    var a, b;
    if PayloadSize(w) >= 65530 {
      a, b := NearDepends(w);
    } else {
      a, b := FarDepends(w);
    }
    TypeDecides(w, a);
    hide IsbChecksumOk, IsbTypeVerdict;
    assert Judge(cfg, Isb, w, a) != Judge(cfg, Isb, w, b);
  }

  lemma TypeDecides(w: seq<byte>, ahead: nat -> byte)
    requires |w| >= 6
    ensures !IsbTypeVerdict(w, ahead).Reject? && !IsbTypeVerdict(w, ahead).More?
  {
  }

  // ----- all frames -------------------------------------------------------------------------------

  lemma RequestDepends(cfg: Config, w: seq<byte>)
    requires |w| >= 8 && |w| == 8 + PayloadSize(w) && PayloadSize(w) < 2 && PacketType(w) == 3 && FrameChecksumOk(w)
    ensures !OwnVerdictOnly(cfg, Isb, w)
  {
    RequestVerdictIsOwn(w);
    hide IsbVerdict, FrameChecksumOk;
    var a: nat -> byte, b: nat -> byte :| IsbVerdict(w, a) != IsbVerdict(w, b);
    assert Judge(cfg, Isb, w, a) != Judge(cfg, Isb, w, b);
  }

  lemma WrappedAtSeven(cfg: Config, w: seq<byte>)
    requires |w| >= 7 && Undecided(cfg, Isb, w[..|w| - 1])
    ensures w[1] == 0x49 && (PayloadSize(w) >= 65528 ==> |w| == 7)
  {
    hide IsbChecksumOk, IsbTypeVerdict;
    var v := w[..|w| - 1];
    assert Judge(cfg, Isb, v[..2], Nowhere()).More? && v[..2][1] == w[1];
    if |w| > 7 {
      assert Judge(cfg, Isb, v[..7], Nowhere()).More?;
      assert v[..7][4] == w[4] && v[..7][5] == w[5];
      TypeDecides(v[..7], Nowhere());
    }
  }

  /** The verdict on a frame of which all but the last byte were undecided is settled by the frame alone if and only if
      its size does not wrap and it is not a data request too short for its size field. */
  lemma SettledExactly(cfg: Config, p: Protocol, w: seq<byte>)
    requires |w| >= 2 && Undecided(cfg, p, w[..|w| - 1])
    ensures OwnVerdictOnly(cfg, p, w) <==> SelfContained(p, w)
  {
    hide Judge, Undecided;
    if SelfContained(p, w) {
      forall a: nat -> byte, b: nat -> byte ensures Judge(cfg, p, w, a) == Judge(cfg, p, w, b) {
        SelfContainedVerdict(cfg, p, w, a);
        SelfContainedVerdict(cfg, p, w, b);
      }
    } else {
      WrappedAtSeven(cfg, w);
      if PayloadSize(w) >= 65528 {
        WrappedDepends(cfg, w);
      } else {
        RequestDepends(cfg, w);
      }
    }
  }
}
