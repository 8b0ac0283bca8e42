/** Bit fields of a byte string, numbered from the most significant bit of the first byte. */
module BitFields {
  import opened Bytes

  /** The byte shifted right. */
  function Shr(b: nat, n: nat): nat {
    if n == 0 then b else Shr(b / 2, n - 1)
  }

  /** Bit `k` of a byte, from the most significant. */
  function BitOf(b: byte, k: nat): (d: nat)
    requires k < 8
    ensures d < 2
  {
    Shr(b, 7 - k) % 2
  }

  /** The `len` bits from `pos` on as a number. */
  function Field(s: seq<byte>, pos: nat, len: nat): nat
    requires pos + len <= 8 * |s|
  {
    if len == 0 then 0 else 2 * Field(s, pos, len - 1) + BitOf(s[(pos + len - 1) / 8], (pos + len - 1) % 8)
  }

  lemma FieldStep(s: seq<byte>, pos: nat, len: nat, i: nat, k: nat)
    requires i < |s| && k < 8 && pos + len == 8 * i + k
    ensures Field(s, pos, len + 1) == 2 * Field(s, pos, len) + BitOf(s[i], k)
  {
    assert (8 * i + k) / 8 == i && (8 * i + k) % 8 == k;
  }

  lemma {:induction false} ShrOnce(b: nat, n: nat)
    ensures Shr(b, n + 1) == Shr(b, n) / 2
    decreases n
  {
    if n > 0 {
      ShrOnce(b / 2, n - 1);
    }
  }

  lemma ShrBit(b: byte, k: nat)
    requires k < 8
    ensures Shr(b, 7 - k) == 2 * Shr(b, 8 - k) + BitOf(b, k)
  {
    hide Shr;
    ShrOnce(b, 7 - k);
  }

  lemma AllOut(b: byte)
    ensures Shr(b, 8) == 0 && Shr(b, 0) == b
  {
    assert Shr(b, 0) == b;
    hide Shr;
    ShrOnce(b, 0);
    ShrOnce(b, 1);
    ShrOnce(b, 2);
    ShrOnce(b, 3);
    ShrOnce(b, 4);
    ShrOnce(b, 5);
    ShrOnce(b, 6);
    ShrOnce(b, 7);
  }

  lemma ByteBits(b: byte)
    ensures 128 * BitOf(b, 0) + 64 * BitOf(b, 1) + 32 * BitOf(b, 2) + 16 * BitOf(b, 3)
          + 8 * BitOf(b, 4) + 4 * BitOf(b, 5) + 2 * BitOf(b, 6) + BitOf(b, 7) == b
  {
    hide Shr, BitOf;
    AllOut(b);
    ShrBit(b, 0);
    ShrBit(b, 1);
    ShrBit(b, 2);
    ShrBit(b, 3);
    ShrBit(b, 4);
    ShrBit(b, 5);
    ShrBit(b, 6);
    ShrBit(b, 7);
  }

  /** A field that ends with a whole byte. */
  lemma FieldByte(s: seq<byte>, pos: nat, len: nat, i: nat)
    requires i < |s| && pos + len == 8 * i
    ensures Field(s, pos, len + 8) == 256 * Field(s, pos, len) + s[i]
  {
    hide Field, BitOf;
    FieldStep(s, pos, len, i, 0);
    FieldStep(s, pos, len + 1, i, 1);
    FieldStep(s, pos, len + 2, i, 2);
    FieldStep(s, pos, len + 3, i, 3);
    FieldStep(s, pos, len + 4, i, 4);
    FieldStep(s, pos, len + 5, i, 5);
    FieldStep(s, pos, len + 6, i, 6);
    FieldStep(s, pos, len + 7, i, 7);
    ByteBits(s[i]);
  }

  lemma FieldNothing(s: seq<byte>, pos: nat)
    requires pos <= 8 * |s|
    ensures Field(s, pos, 0) == 0
  {
  }

  /** The ten bits from bit 14 on: the length field of an RTCM3 frame. */
  lemma LengthField(s: seq<byte>)
    requires |s| >= 3
    ensures Field(s, 14, 10) == s[1] as int % 4 * 256 + s[2] as int
  {
    hide Field, BitOf;
    FieldNothing(s, 14);
    FieldStep(s, 14, 0, 1, 6);
    FieldStep(s, 14, 1, 1, 7);
    FieldByte(s, 14, 2, 2);
    LowTwo(s[1]);
  }

  lemma LowTwo(b: byte)
    ensures 2 * BitOf(b, 6) + BitOf(b, 7) == b as int % 4
  {
    assert Shr(b, 0) == b && Shr(b, 1) == Shr(b / 2, 0) == b / 2;
  }

  /** Three whole bytes: the checksum of an RTCM3 frame. */
  lemma ThreeBytes(s: seq<byte>)
    requires |s| >= 3
    ensures Field(s, 0, 24) == s[0] as int * 0x10000 + s[1] as int * 0x100 + s[2] as int
  {
    hide Field, BitOf;
    FieldNothing(s, 0);
    FieldByte(s, 0, 0, 0);
    FieldByte(s, 0, 8, 1);
    FieldByte(s, 0, 16, 2);
  }
}
