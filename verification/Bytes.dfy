/** Bytes, fixed-width little-endian integers and a few facts about sequences. */
module Bytes {

  type byte = b: int | 0 <= b < 256

  datatype Option<+T> = None | Some(value: T)

  /** A 16-bit little-endian value from its low and high byte. */
  function Le16(lo: byte, hi: byte): (n: nat)
    ensures n < 0x10000
  {
    lo + 256 * hi
  }

  function Lo(n: nat): byte {
    n % 256
  }

  function Hi(n: nat): byte {
    n / 256 % 256
  }

  lemma Le16RoundTrip(n: nat)
    requires n < 0x10000
    ensures Le16(Lo(n), Hi(n)) == n
  {
  }

  /** The `n` bytes of a memory from address `at` on. */
  function Slice(memory: nat -> byte, at: nat, n: nat): (s: seq<byte>)
    ensures |s| == n && forall i :: 0 <= i < n ==> s[i] == memory(at + i)
  {
    seq(n, i requires 0 <= i < n => memory(at + i))
  }

  lemma SlicePrefix<T>(s: seq<T>, a: nat, b: nat, k: nat)
    requires a <= b <= |s| && a + k <= b
    ensures s[a..b][..k] == s[a..a + k]
  {
  }

  function Flatten<T>(parts: seq<seq<T>>): seq<T> {
    if parts == [] then [] else parts[0] + Flatten(parts[1..])
  }

  lemma {:induction false} FlattenAppend<T>(parts: seq<seq<T>>, last: seq<T>)
    ensures Flatten(parts + [last]) == Flatten(parts) + last
  {
    if parts == [] {
      assert parts + [last] == [last];
      assert Flatten([last]) == last + Flatten([last][1..]);
    } else {
      assert (parts + [last])[1..] == parts[1..] + [last];
      FlattenAppend(parts[1..], last);
    }
  }

  lemma {:induction false} FlattenConcat<T>(xs: seq<seq<T>>, ys: seq<seq<T>>)
    ensures Flatten(xs + ys) == Flatten(xs) + Flatten(ys)
  {
    if xs == [] {
      assert xs + ys == ys;
    } else {
      assert (xs + ys)[1..] == xs[1..] + ys;
      FlattenConcat(xs[1..], ys);
    }
  }
}
