/** The 24-bit CRC of RTCM 10403 section 4 (CRC-24Q): the table-driven loop and the division it stands for. */
module Crc24 {

  // The 256-entry table, as a decision on the index, in four blocks of 64.

  function Table0(i: nat): bv24 {
    if i < 32 then (
      if i < 16 then (
        if i < 8 then (
          if i < 4 then
            (if i < 2 then (if i == 0 then 0x000000 else 0x864CFB) else if i == 2 then 0x8AD50D else 0x0C99F6)
          else if i < 6 then (if i == 4 then 0x93E6E1 else 0x15AA1A) else if i == 6 then 0x1933EC else 0x9F7F17
        ) else (
          if i < 12 then
            (if i < 10 then (if i == 8 then 0xA18139 else 0x27CDC2) else if i == 10 then 0x2B5434 else 0xAD18CF)
          else if i < 14 then (if i == 12 then 0x3267D8 else 0xB42B23) else if i == 14 then 0xB8B2D5 else 0x3EFE2E
        )
      ) else (
        if i < 24 then (
          if i < 20 then
            (if i < 18 then (if i == 16 then 0xC54E89 else 0x430272) else if i == 18 then 0x4F9B84 else 0xC9D77F)
          else if i < 22 then (if i == 20 then 0x56A868 else 0xD0E493) else if i == 22 then 0xDC7D65 else 0x5A319E
        ) else (
          if i < 28 then
            (if i < 26 then (if i == 24 then 0x64CFB0 else 0xE2834B) else if i == 26 then 0xEE1ABD else 0x685646)
          else if i < 30 then (if i == 28 then 0xF72951 else 0x7165AA) else if i == 30 then 0x7DFC5C else 0xFBB0A7
        )
      )
    ) else (
      if i < 48 then (
        if i < 40 then (
          if i < 36 then
            (if i < 34 then (if i == 32 then 0x0CD1E9 else 0x8A9D12) else if i == 34 then 0x8604E4 else 0x00481F)
          else if i < 38 then (if i == 36 then 0x9F3708 else 0x197BF3) else if i == 38 then 0x15E205 else 0x93AEFE
        ) else (
          if i < 44 then
            (if i < 42 then (if i == 40 then 0xAD50D0 else 0x2B1C2B) else if i == 42 then 0x2785DD else 0xA1C926)
          else if i < 46 then (if i == 44 then 0x3EB631 else 0xB8FACA) else if i == 46 then 0xB4633C else 0x322FC7
        )
      ) else (
        if i < 56 then (
          if i < 52 then
            (if i < 50 then (if i == 48 then 0xC99F60 else 0x4FD39B) else if i == 50 then 0x434A6D else 0xC50696)
          else if i < 54 then (if i == 52 then 0x5A7981 else 0xDC357A) else if i == 54 then 0xD0AC8C else 0x56E077
        ) else (
          if i < 60 then
            (if i < 58 then (if i == 56 then 0x681E59 else 0xEE52A2) else if i == 58 then 0xE2CB54 else 0x6487AF)
          else if i < 62 then (if i == 60 then 0xFBF8B8 else 0x7DB443) else if i == 62 then 0x712DB5 else 0xF7614E
        )
      )
    )
  }

  function Table64(i: nat): bv24 {
    if i < 96 then (
      if i < 80 then (
        if i < 72 then (
          if i < 68 then
            (if i < 66 then (if i == 64 then 0x19A3D2 else 0x9FEF29) else if i == 66 then 0x9376DF else 0x153A24)
          else if i < 70 then (if i == 68 then 0x8A4533 else 0x0C09C8) else if i == 70 then 0x00903E else 0x86DCC5
        ) else (
          if i < 76 then
            (if i < 74 then (if i == 72 then 0xB822EB else 0x3E6E10) else if i == 74 then 0x32F7E6 else 0xB4BB1D)
          else if i < 78 then (if i == 76 then 0x2BC40A else 0xAD88F1) else if i == 78 then 0xA11107 else 0x275DFC
        )
      ) else (
        if i < 88 then (
          if i < 84 then
            (if i < 82 then (if i == 80 then 0xDCED5B else 0x5AA1A0) else if i == 82 then 0x563856 else 0xD074AD)
          else if i < 86 then (if i == 84 then 0x4F0BBA else 0xC94741) else if i == 86 then 0xC5DEB7 else 0x43924C
        ) else (
          if i < 92 then
            (if i < 90 then (if i == 88 then 0x7D6C62 else 0xFB2099) else if i == 90 then 0xF7B96F else 0x71F594)
          else if i < 94 then (if i == 92 then 0xEE8A83 else 0x68C678) else if i == 94 then 0x645F8E else 0xE21375
        )
      )
    ) else (
      if i < 112 then (
        if i < 104 then (
          if i < 100 then
            (if i < 98 then (if i == 96 then 0x15723B else 0x933EC0) else if i == 98 then 0x9FA736 else 0x19EBCD)
          else if i < 102 then (if i == 100 then 0x8694DA else 0x00D821) else if i == 102 then 0x0C41D7 else 0x8A0D2C
        ) else (
          if i < 108 then
            (if i < 106 then (if i == 104 then 0xB4F302 else 0x32BFF9) else if i == 106 then 0x3E260F else 0xB86AF4)
          else if i < 110 then (if i == 108 then 0x2715E3 else 0xA15918) else if i == 110 then 0xADC0EE else 0x2B8C15
        )
      ) else (
        if i < 120 then (
          if i < 116 then
            (if i < 114 then (if i == 112 then 0xD03CB2 else 0x567049) else if i == 114 then 0x5AE9BF else 0xDCA544)
          else if i < 118 then (if i == 116 then 0x43DA53 else 0xC596A8) else if i == 118 then 0xC90F5E else 0x4F43A5
        ) else (
          if i < 124 then
            (if i < 122 then (if i == 120 then 0x71BD8B else 0xF7F170) else if i == 122 then 0xFB6886 else 0x7D247D)
          else if i < 126 then (if i == 124 then 0xE25B6A else 0x641791) else if i == 126 then 0x688E67 else 0xEEC29C
        )
      )
    )
  }

  function Table128(i: nat): bv24 {
    if i < 160 then (
      if i < 144 then (
        if i < 136 then (
          if i < 132 then
            (if i < 130 then (if i == 128 then 0x3347A4 else 0xB50B5F) else if i == 130 then 0xB992A9 else 0x3FDE52)
          else if i < 134 then (if i == 132 then 0xA0A145 else 0x26EDBE) else if i == 134 then 0x2A7448 else 0xAC38B3
        ) else (
          if i < 140 then
            (if i < 138 then (if i == 136 then 0x92C69D else 0x148A66) else if i == 138 then 0x181390 else 0x9E5F6B)
          else if i < 142 then (if i == 140 then 0x01207C else 0x876C87) else if i == 142 then 0x8BF571 else 0x0DB98A
        )
      ) else (
        if i < 152 then (
          if i < 148 then
            (if i < 146 then (if i == 144 then 0xF6092D else 0x7045D6) else if i == 146 then 0x7CDC20 else 0xFA90DB)
          else if i < 150 then (if i == 148 then 0x65EFCC else 0xE3A337) else if i == 150 then 0xEF3AC1 else 0x69763A
        ) else (
          if i < 156 then
            (if i < 154 then (if i == 152 then 0x578814 else 0xD1C4EF) else if i == 154 then 0xDD5D19 else 0x5B11E2)
          else if i < 158 then (if i == 156 then 0xC46EF5 else 0x42220E) else if i == 158 then 0x4EBBF8 else 0xC8F703
        )
      )
    ) else (
      if i < 176 then (
        if i < 168 then (
          if i < 164 then
            (if i < 162 then (if i == 160 then 0x3F964D else 0xB9DAB6) else if i == 162 then 0xB54340 else 0x330FBB)
          else if i < 166 then (if i == 164 then 0xAC70AC else 0x2A3C57) else if i == 166 then 0x26A5A1 else 0xA0E95A
        ) else (
          if i < 172 then
            (if i < 170 then (if i == 168 then 0x9E1774 else 0x185B8F) else if i == 170 then 0x14C279 else 0x928E82)
          else if i < 174 then (if i == 172 then 0x0DF195 else 0x8BBD6E) else if i == 174 then 0x872498 else 0x016863
        )
      ) else (
        if i < 184 then (
          if i < 180 then
            (if i < 178 then (if i == 176 then 0xFAD8C4 else 0x7C943F) else if i == 178 then 0x700DC9 else 0xF64132)
          else if i < 182 then (if i == 180 then 0x693E25 else 0xEF72DE) else if i == 182 then 0xE3EB28 else 0x65A7D3
        ) else (
          if i < 188 then
            (if i < 186 then (if i == 184 then 0x5B59FD else 0xDD1506) else if i == 186 then 0xD18CF0 else 0x57C00B)
          else if i < 190 then (if i == 188 then 0xC8BF1C else 0x4EF3E7) else if i == 190 then 0x426A11 else 0xC426EA
        )
      )
    )
  }

  function Table192(i: nat): bv24 {
    if i < 224 then (
      if i < 208 then (
        if i < 200 then (
          if i < 196 then
            (if i < 194 then (if i == 192 then 0x2AE476 else 0xACA88D) else if i == 194 then 0xA0317B else 0x267D80)
          else if i < 198 then (if i == 196 then 0xB90297 else 0x3F4E6C) else if i == 198 then 0x33D79A else 0xB59B61
        ) else (
          if i < 204 then
            (if i < 202 then (if i == 200 then 0x8B654F else 0x0D29B4) else if i == 202 then 0x01B042 else 0x87FCB9)
          else if i < 206 then (if i == 204 then 0x1883AE else 0x9ECF55) else if i == 206 then 0x9256A3 else 0x141A58
        )
      ) else (
        if i < 216 then (
          if i < 212 then
            (if i < 210 then (if i == 208 then 0xEFAAFF else 0x69E604) else if i == 210 then 0x657FF2 else 0xE33309)
          else if i < 214 then (if i == 212 then 0x7C4C1E else 0xFA00E5) else if i == 214 then 0xF69913 else 0x70D5E8
        ) else (
          if i < 220 then
            (if i < 218 then (if i == 216 then 0x4E2BC6 else 0xC8673D) else if i == 218 then 0xC4FECB else 0x42B230)
          else if i < 222 then (if i == 220 then 0xDDCD27 else 0x5B81DC) else if i == 222 then 0x57182A else 0xD154D1
        )
      )
    ) else (
      if i < 240 then (
        if i < 232 then (
          if i < 228 then
            (if i < 226 then (if i == 224 then 0x26359F else 0xA07964) else if i == 226 then 0xACE092 else 0x2AAC69)
          else if i < 230 then (if i == 228 then 0xB5D37E else 0x339F85) else if i == 230 then 0x3F0673 else 0xB94A88
        ) else (
          if i < 236 then
            (if i < 234 then (if i == 232 then 0x87B4A6 else 0x01F85D) else if i == 234 then 0x0D61AB else 0x8B2D50)
          else if i < 238 then (if i == 236 then 0x145247 else 0x921EBC) else if i == 238 then 0x9E874A else 0x18CBB1
        )
      ) else (
        if i < 248 then (
          if i < 244 then
            (if i < 242 then (if i == 240 then 0xE37B16 else 0x6537ED) else if i == 242 then 0x69AE1B else 0xEFE2E0)
          else if i < 246 then (if i == 244 then 0x709DF7 else 0xF6D10C) else if i == 246 then 0xFA48FA else 0x7C0401
        ) else (
          if i < 252 then
            (if i < 250 then (if i == 248 then 0x42FA2F else 0xC4B6D4) else if i == 250 then 0xC82F22 else 0x4E63D9)
          else if i < 254 then (if i == 252 then 0xD11CCE else 0x575035) else if i == 254 then 0x5BC9C3 else 0xDD8538
        )
      )
    )
  }

  /** Entry `i` of the table, for `i` below 256. */
  function TableEntry(i: nat): bv24 {
    if i < 64 then Table0(i) else if i < 128 then Table64(i) else if i < 192 then Table128(i) else Table192(i)
  }

  function Xor(x: bv24, y: bv24): bv24 {
    x ^ y
  }

  function TopByte(c: bv24): bv8 {
    (c >> 16) as bv8
  }

  function Index(c: bv24, b: bv8): bv8 {
    TopByte(c) ^ b
  }

  /** Shifting a 24-bit word left drops the bits the source masks away. */
  function UpByte(c: bv24): bv24 {
    c << 8
  }

  /** The CRC after one more byte. */
  function Step(crc: bv24, b: bv8): bv24 {
    Xor(UpByte(crc), TableEntry(Index(crc, b) as nat))
  }

  function CrcFrom(crc: bv24, data: seq<bv8>): bv24 {
    if data == [] then crc else Step(CrcFrom(crc, data[..|data| - 1]), data[|data| - 1])
  }

  function Crc(data: seq<bv8>): bv24 {
    CrcFrom(0, data)
  }

  // ----- addition and division of polynomials with 24 coefficients -------------------------

  lemma XorComm(x: bv24, y: bv24)
    ensures Xor(x, y) == Xor(y, x)
  {
  }

  lemma XorAssoc(x: bv24, y: bv24, z: bv24)
    ensures Xor(Xor(x, y), z) == Xor(x, Xor(y, z))
  {
  }

  lemma XorSelf(x: bv24)
    ensures Xor(x, x) == 0
  {
  }

  lemma XorZero(x: bv24)
    ensures Xor(x, 0) == x
  {
  }

  lemma XorCancels(x: bv24, y: bv24, z: bv24)
    requires Xor(x, y) == Xor(x, z)
    ensures y == z
  {
    hide Xor;
    XorAssoc(x, x, y);
    XorAssoc(x, x, z);
    XorSelf(x);
    XorComm(0, y);
    XorComm(0, z);
    XorZero(y);
    XorZero(z);
  }

  /** The generator polynomial without its leading term. */
  const GENERATOR: bv24 := 0x864CFB

  /** One step of long division: bring down a zero and cancel a leading one. */
  function Shift(r: bv24): bv24 {
    if r >= 0x800000 then (r << 1) ^ GENERATOR else r << 1
  }

  function ShiftN(r: bv24, n: nat): bv24
    decreases n
  {
    if n == 0 then r else ShiftN(Shift(r), n - 1)
  }

  function Carry(bit: bool): bv24 {
    if bit then GENERATOR else 0
  }

  lemma CarryAdds(b: bool, c: bool)
    ensures Carry(b != c) == Xor(Carry(b), Carry(c))
  {
  }

  lemma ShiftCarries(r: bv24)
    ensures Shift(r) == Xor(Twice(r), Carry(r >= 0x800000))
  {
    if r >= 0x800000 {
      assert Carry(true) == GENERATOR;
    } else {
      hide Xor;
      XorZero(Twice(r));
    }
  }

  lemma LeadAdds(x: bv24, y: bv24)
    ensures (Xor(x, y) >= 0x800000) == ((x >= 0x800000) != (y >= 0x800000))
  {
  }

  function Twice(r: bv24): bv24 {
    r << 1
  }

  lemma TwiceAdds(x: bv24, y: bv24)
    ensures Twice(Xor(x, y)) == Xor(Twice(x), Twice(y))
  {
  }

  lemma XorSwap(a: bv24, b: bv24, c: bv24, d: bv24)
    ensures Xor(Xor(a, b), Xor(c, d)) == Xor(Xor(a, c), Xor(b, d))
  {
    hide Xor;
    XorAssoc(a, b, Xor(c, d));
    XorAssoc(b, c, d);
    XorComm(b, c);
    XorAssoc(c, b, d);
    XorAssoc(a, c, Xor(b, d));
  }

  lemma ShiftAdds(x: bv24, y: bv24)
    ensures Shift(Xor(x, y)) == Xor(Shift(x), Shift(y))
  {
    hide Shift, Carry, Xor, Twice;
    ShiftCarries(x);
    ShiftCarries(y);
    ShiftCarries(Xor(x, y));
    LeadAdds(x, y);
    TwiceAdds(x, y);
    CarryAdds(x >= 0x800000, y >= 0x800000);
    XorSwap(Twice(x), Twice(y), Carry(x >= 0x800000), Carry(y >= 0x800000));
  }

  /** Division is linear. */
  lemma {:induction false} ShiftNAdds(x: bv24, y: bv24, n: nat)
    ensures ShiftN(Xor(x, y), n) == Xor(ShiftN(x, n), ShiftN(y, n))
    decreases n
  {
    hide Shift, Xor;
    if n > 0 {
      ShiftAdds(x, y);
      ShiftNAdds(Shift(x), Shift(y), n - 1);
    }
  }

  lemma {:induction false} ShiftNTwice(r: bv24, m: nat, n: nat)
    ensures ShiftN(ShiftN(r, m), n) == ShiftN(r, m + n)
    decreases m
  {
    hide Shift;
    if m > 0 {
      ShiftNTwice(Shift(r), m - 1, n);
    }
  }

  // ----- the table ------------------------------------------------------------------------

  /** Entry `i` follows from the entry at half its index. */
  predicate Doubled(i: nat) {
    TableEntry(i) == Xor(Shift(TableEntry(i / 2)), Carry(i % 2 == 1))
  }

  predicate DoubledUpTo(i: nat, hi: nat)
    requires i <= hi
    decreases hi - i
  {
    i == hi || (Doubled(i) && DoubledUpTo(i + 1, hi))
  }

  lemma Doubled0() ensures DoubledUpTo(0, 8) {}
  lemma Doubled8() ensures DoubledUpTo(8, 16) {}
  lemma Doubled16() ensures DoubledUpTo(16, 24) {}
  lemma Doubled24() ensures DoubledUpTo(24, 32) {}
  lemma Doubled32() ensures DoubledUpTo(32, 40) {}
  lemma Doubled40() ensures DoubledUpTo(40, 48) {}
  lemma Doubled48() ensures DoubledUpTo(48, 56) {}
  lemma Doubled56() ensures DoubledUpTo(56, 64) {}
  lemma Doubled64() ensures DoubledUpTo(64, 72) {}
  lemma Doubled72() ensures DoubledUpTo(72, 80) {}
  lemma Doubled80() ensures DoubledUpTo(80, 88) {}
  lemma Doubled88() ensures DoubledUpTo(88, 96) {}
  lemma Doubled96() ensures DoubledUpTo(96, 104) {}
  lemma Doubled104() ensures DoubledUpTo(104, 112) {}
  lemma Doubled112() ensures DoubledUpTo(112, 120) {}
  lemma Doubled120() ensures DoubledUpTo(120, 128) {}
  lemma Doubled128() ensures DoubledUpTo(128, 136) {}
  lemma Doubled136() ensures DoubledUpTo(136, 144) {}
  lemma Doubled144() ensures DoubledUpTo(144, 152) {}
  lemma Doubled152() ensures DoubledUpTo(152, 160) {}
  lemma Doubled160() ensures DoubledUpTo(160, 168) {}
  lemma Doubled168() ensures DoubledUpTo(168, 176) {}
  lemma Doubled176() ensures DoubledUpTo(176, 184) {}
  lemma Doubled184() ensures DoubledUpTo(184, 192) {}
  lemma Doubled192() ensures DoubledUpTo(192, 200) {}
  lemma Doubled200() ensures DoubledUpTo(200, 208) {}
  lemma Doubled208() ensures DoubledUpTo(208, 216) {}
  lemma Doubled216() ensures DoubledUpTo(216, 224) {}
  lemma Doubled224() ensures DoubledUpTo(224, 232) {}
  lemma Doubled232() ensures DoubledUpTo(232, 240) {}
  lemma Doubled240() ensures DoubledUpTo(240, 248) {}
  lemma Doubled248() ensures DoubledUpTo(248, 256) {}

  lemma {:induction false} DoubledWithin(lo: nat, hi: nat, i: nat)
    requires lo <= i < hi && DoubledUpTo(lo, hi)
    ensures Doubled(i)
    decreases hi - lo
  {
    hide Doubled;
    if lo < i {
      DoubledWithin(lo + 1, hi, i);
    }
  }

  lemma AllDoubled(i: nat)
    requires i < 256
    ensures Doubled(i)
  {
    hide DoubledUpTo, Doubled;
    Doubled0(); Doubled8(); Doubled16(); Doubled24(); Doubled32(); Doubled40(); Doubled48(); Doubled56();
    Doubled64(); Doubled72(); Doubled80(); Doubled88(); Doubled96(); Doubled104(); Doubled112(); Doubled120();
    Doubled128(); Doubled136(); Doubled144(); Doubled152(); Doubled160(); Doubled168(); Doubled176(); Doubled184();
    Doubled192(); Doubled200(); Doubled208(); Doubled216(); Doubled224(); Doubled232(); Doubled240(); Doubled248();
    var lo := i / 8 * 8;
    assert DoubledUpTo(lo, lo + 8);
    DoubledWithin(lo, lo + 8, i);
  }

  lemma EntryHalf(i: nat)
    requires i < 256
    ensures TableEntry(i) == Xor(Shift(TableEntry(i / 2)), Carry(i % 2 == 1))
  {
    hide TableEntry, Shift;
    AllDoubled(i);
  }

  /** A byte as the eight leading coefficients. */
  function Leading(b: bv8): bv24 {
    (b as bv24) << 16
  }

  function Odd(b: bv8): bv24 {
    if b & 1 == 1 then 0x010000 else 0
  }

  lemma LeadingHalf(b: bv8)
    ensures Leading(b) == Xor(Shift(Leading(b >> 1)), Odd(b))
  {
    assert !(Leading(b >> 1) >= 0x800000);
    if b & 1 == 1 {}
  }

  lemma IndexHalf(b: bv8)
    ensures (b >> 1) as nat == b as nat / 2
    ensures (b & 1 == 1) == (b as nat % 2 == 1)
  {
  }

  lemma CarryByte()
    ensures ShiftN(0x010000, 8) == GENERATOR && ShiftN(0, 8) == 0 && TableEntry(0) == 0 && Leading(0) == 0
  {
  }

  lemma {:induction false} ShiftNOnce(r: bv24, n: nat)
    ensures ShiftN(Shift(r), n) == Shift(ShiftN(r, n))
    decreases n
  {
    hide Shift;
    if n > 0 {
      ShiftNOnce(Shift(r), n - 1);
    }
  }

  /** Each table entry is the remainder of its index, followed by eight zero digits. */
  lemma {:induction false} TableIsDivision(b: bv8)
    ensures TableEntry(b as nat) == ShiftN(Leading(b), 8)
    decreases b as nat
  {
    hide TableEntry, Leading, Xor, Shift, ShiftN;
    CarryByte();
    if b == 0 {
    } else {
      var h := b >> 1;
      IndexHalf(b);
      TableIsDivision(h);
      EntryHalf(b as nat);
      LeadingHalf(b);
      ShiftNAdds(Shift(Leading(h)), Odd(b), 8);
      ShiftNOnce(Leading(h), 8);
    }
  }

  // ----- one digit at a time --------------------------------------------------------------

  function Digit(b: bv8, k: bv4): bv24
    requires k < 8
  {
    if (b >> k) & 1 == 1 then 1 else 0
  }

  /** Bring down one digit of the dividend. */
  function Bring(r: bv24, digit: bv24): bv24 {
    Xor(Shift(r), digit)
  }

  /** Bring down the eight digits of a byte, most significant first. */
  function BringByte(r: bv24, b: bv8): bv24 {
    var r7 := Bring(r, Digit(b, 7));
    var r6 := Bring(r7, Digit(b, 6));
    var r5 := Bring(r6, Digit(b, 5));
    var r4 := Bring(r5, Digit(b, 4));
    var r3 := Bring(r4, Digit(b, 3));
    var r2 := Bring(r3, Digit(b, 2));
    var r1 := Bring(r2, Digit(b, 1));
    Bring(r1, Digit(b, 0))
  }

  /** The register of the long division of a message, read as one polynomial. */
  function Divide(data: seq<bv8>): bv24 {
    if data == [] then 0 else BringByte(Divide(data[..|data| - 1]), data[|data| - 1])
  }

  /** The digits of `b` from the top down to `k`, as a number. */
  function Above(b: bv8, k: bv4): bv24
    requires k <= 8
  {
    (b >> k) as bv24
  }

  lemma AboveNext(b: bv8, k: bv4)
    requires k < 8
    ensures Above(b, k) == Xor(Shift(Above(b, k + 1)), Digit(b, k))
  {
    assert !(Above(b, k + 1) >= 0x800000);
  }

  lemma BringStep(r: bv24, j: nat, b: bv8, k: bv4)
    requires k < 8
    ensures Bring(Xor(ShiftN(r, j), Above(b, k + 1)), Digit(b, k)) == Xor(ShiftN(r, j + 1), Above(b, k))
  {
    hide Shift, Xor, ShiftN, Above, Digit;
    ShiftAdds(ShiftN(r, j), Above(b, k + 1));
    AboveNext(b, k);
    XorAssoc(Shift(ShiftN(r, j)), Shift(Above(b, k + 1)), Digit(b, k));
    ShiftNOnce(r, j);
    ShiftNTwice(r, j, 1);
    assert ShiftN(ShiftN(r, j), 1) == Shift(ShiftN(r, j)) by { ShiftNOne(ShiftN(r, j)); }
  }

  lemma ShiftNOne(r: bv24)
    ensures ShiftN(r, 0) == r && ShiftN(r, 1) == Shift(r)
  {
    hide Shift;
  }

  /** Bringing down a byte shifts the register by eight places and adds the byte. */
  lemma BringByteAdds(r: bv24, b: bv8)
    ensures BringByte(r, b) == Xor(ShiftN(r, 8), b as bv24)
  {
    assert Above(b, 8) == 0 && Above(b, 0) == b as bv24;
    hide Shift, Xor, ShiftN, Above, Digit, Bring;
    ShiftNOne(r);
    XorZero(r);
    BringStep(r, 0, b, 7);
    BringStep(r, 1, b, 6);
    BringStep(r, 2, b, 5);
    BringStep(r, 3, b, 4);
    BringStep(r, 4, b, 3);
    BringStep(r, 5, b, 2);
    BringStep(r, 6, b, 1);
    BringStep(r, 7, b, 0);
  }

  function Low(c: bv24): bv24 {
    c & 0xFFFF
  }

  lemma LowShifts(r: bv24)
    requires r < 0x10000
    ensures ShiftN(r, 8) == UpByte(r)
  {
  }

  lemma LowBound(c: bv24)
    ensures Low(c) < 0x10000 && UpByte(Low(c)) == UpByte(c)
  {
  }

  lemma Parts(c: bv24)
    ensures Xor(Leading(TopByte(c)), Low(c)) == c
  {
  }

  lemma IndexLeads(c: bv24, b: bv8)
    ensures Leading(Index(c, b)) == Xor(Leading(TopByte(c)), Leading(b))
  {
  }

  /** A step of the table loop is eight steps of the division. */
  lemma StepIsShift(c: bv24, b: bv8)
    ensures Step(c, b) == ShiftN(Xor(c, Leading(b)), 8)
  {
    hide Shift, ShiftN, TableEntry, Leading, Xor, TopByte, Low, UpByte, Index;
    var t, l := Leading(TopByte(c)), Low(c);
    var i := Index(c, b);
    Parts(c);
    LowBound(c);
    LowShifts(l);
    TableIsDivision(i);
    IndexLeads(c, b);
    XorAssoc(t, l, Leading(b));
    XorComm(l, Leading(b));
    XorAssoc(t, Leading(b), l);
    ShiftNAdds(Leading(i), l, 8);
    XorComm(UpByte(c), TableEntry(i as nat));
  }

  lemma LeadingIsShift(b: bv8)
    ensures Leading(b) == ShiftN(b as bv24, 16)
    ensures Leading(b) == ShiftN((b as bv24) << 8, 8)
  {
    var r := b as bv24;
    LowShifts(r);
    LowShifts(r << 8);
    assert UpByte(r) == r << 8 && UpByte(r << 8) == Leading(b);
    hide Shift, ShiftN;
    ShiftNTwice(r, 8, 8);
  }

  /** The table-driven CRC is the remainder of the message followed by 24 zero digits. */
  lemma {:induction false} CrcIsDivision(data: seq<bv8>)
    ensures Crc(data) == ShiftN(Divide(data), 24)
  {
    if data == [] {
      CrcOfNothing();
    } else {
      hide Shift, ShiftN, Xor, Leading, Step, BringByte;
      var d, b := data[..|data| - 1], data[|data| - 1];
      CrcIsDivision(d);
      StepIsShift(Crc(d), b);
      ShiftNAdds(Crc(d), Leading(b), 8);
      ShiftNTwice(Divide(d), 24, 8);
      BringByteAdds(Divide(d), b);
      ShiftNAdds(ShiftN(Divide(d), 8), b as bv24, 24);
      ShiftNTwice(Divide(d), 8, 24);
      LeadingIsShift(b);
      ShiftNTwice(b as bv24, 16, 8);
    }
  }

  lemma CrcOfNothing()
    ensures ShiftN(0, 24) == 0
  {
    hide Shift;
    ShiftNTwice(0, 8, 8);
    ShiftNTwice(0, 16, 8);
    CarryByte();
  }

  // ----- what the CRC detects -------------------------------------------------------------

  /** A word as the three bytes a sender appends, most significant first. */
  function Trailer(c: bv24): seq<bv8> {
    [TopByte(c), TopByte(UpByte(c)), TopByte(UpByte(UpByte(c)))]
  }

  lemma StepOwnByte(c: bv24)
    ensures Step(c, TopByte(c)) == UpByte(c)
  {
    assert Index(c, TopByte(c)) == 0;
    hide TableEntry, Index;
    CarryByte();
    XorZero(UpByte(c));
  }

  lemma {:induction false} CrcSplits(c: bv24, s: seq<bv8>, t: seq<bv8>)
    ensures CrcFrom(c, s + t) == CrcFrom(CrcFrom(c, s), t)
    decreases |t|
  {
    hide Step;
    if t == [] {
      assert s + t == s;
    } else {
      assert (s + t)[..|s + t| - 1] == s + t[..|t| - 1];
      CrcSplits(c, s, t[..|t| - 1]);
    }
  }

  lemma CrcOfThree(c: bv24, a: bv8, b: bv8, d: bv8)
    ensures CrcFrom(c, [a]) == Step(c, a)
    ensures CrcFrom(c, [a, b]) == Step(Step(c, a), b)
    ensures CrcFrom(c, [a, b, d]) == Step(Step(Step(c, a), b), d)
  {
    hide Step;
    assert [a][..0] == [] && [a, b][..1] == [a] && [a, b, d][..2] == [a, b];
  }

  /** A message followed by its own CRC leaves nothing. */
  lemma CrcOfFrameIsZero(data: seq<bv8>)
    ensures Crc(data + Trailer(Crc(data))) == 0
  {
    hide Step, TopByte;
    var c := Crc(data);
    CrcSplits(0, data, Trailer(c));
    CrcOfThree(c, TopByte(c), TopByte(UpByte(c)), TopByte(UpByte(UpByte(c))));
    StepOwnByte(c);
    StepOwnByte(UpByte(c));
    StepOwnByte(UpByte(UpByte(c)));
    assert UpByte(UpByte(UpByte(c))) == 0;
  }

  lemma ShiftZero(r: bv24)
    requires Shift(r) == 0
    ensures r == 0
  {
  }

  lemma {:induction false} ShiftNZero(r: bv24, n: nat)
    requires ShiftN(r, n) == 0
    ensures r == 0
    decreases n
  {
    hide Shift;
    if n > 0 {
      ShiftNZero(Shift(r), n - 1);
      ShiftZero(r);
    }
  }

  /** Different registers stay different. */
  lemma ShiftNInjective(x: bv24, y: bv24, n: nat)
    requires ShiftN(x, n) == ShiftN(y, n)
    ensures x == y
  {
    hide Shift, ShiftN, Xor;
    ShiftNAdds(x, y, n);
    XorSelf(ShiftN(x, n));
    ShiftNZero(Xor(x, y), n);
    XorSelf(x);
    XorCancels(x, x, y);
  }

  lemma {:induction false} CrcInjective(c: bv24, d: bv24, t: seq<bv8>)
    requires CrcFrom(c, t) == CrcFrom(d, t)
    ensures c == d
    decreases |t|
  {
    hide Step, ShiftN, Xor, Leading;
    if t != [] {
      var u, b := t[..|t| - 1], t[|t| - 1];
      var x, y := CrcFrom(c, u), CrcFrom(d, u);
      StepIsShift(x, b);
      StepIsShift(y, b);
      ShiftNInjective(Xor(x, Leading(b)), Xor(y, Leading(b)), 8);
      XorComm(x, Leading(b));
      XorComm(y, Leading(b));
      XorCancels(Leading(b), x, y);
      CrcInjective(c, d, u);
    }
  }

  /** Up to three bytes as the leading coefficients of one word. */
  function Word(a: bv8, b: bv8, d: bv8): bv24 {
    Xor(Xor(Leading(a), (b as bv24) << 8), d as bv24)
  }

  lemma WordBytes(a: bv8, b: bv8, d: bv8)
    ensures TopByte(Word(a, b, d)) == a
    ensures TopByte(UpByte(Word(a, b, d))) == b
    ensures TopByte(UpByte(UpByte(Word(a, b, d)))) == d
  {
  }

  lemma WordInjective(a: bv8, b: bv8, d: bv8, a': bv8, b': bv8, d': bv8)
    requires Word(a, b, d) == Word(a', b', d')
    ensures a == a' && b == b' && d == d'
  {
    hide Word, TopByte, UpByte;
    WordBytes(a, b, d);
    WordBytes(a', b', d');
  }

  /** Reading three bytes is reading one word: the bytes are added to the register and shifted out. */
  lemma CrcOfWord(c: bv24, a: bv8, b: bv8, d: bv8)
    ensures CrcFrom(c, [a, b, d]) == ShiftN(Xor(c, Word(a, b, d)), 24)
  {
    hide Step, ShiftN, Shift, Xor, Leading;
    CrcOfThree(c, a, b, d);
    var m, l := (b as bv24) << 8, d as bv24;
    var x := Xor(c, Leading(a));
    StepIsShift(c, a);
    StepIsShift(Step(c, a), b);
    LeadingIsShift(b);
    ShiftNAdds(x, m, 8);
    ShiftNTwice(Xor(x, m), 8, 8);
    StepIsShift(Step(Step(c, a), b), d);
    LeadingIsShift(d);
    ShiftNAdds(Xor(x, m), l, 16);
    ShiftNTwice(Xor(Xor(x, m), l), 16, 8);
    XorAssoc(c, Leading(a), m);
    XorAssoc(c, Xor(Leading(a), m), l);
  }

  lemma DetectsThreeBytes(p: seq<bv8>, x: seq<bv8>, y: seq<bv8>, t: seq<bv8>)
    requires |x| == |y| == 3 && x != y
    ensures Crc(p + x + t) != Crc(p + y + t)
  {
    hide Step, ShiftN, Word;
    var c := Crc(p);
    CrcSplits(0, p + x, t);
    CrcSplits(0, p + y, t);
    CrcSplits(0, p, x);
    CrcSplits(0, p, y);
    assert x == [x[0], x[1], x[2]] && y == [y[0], y[1], y[2]];
    if Crc(p + x + t) == Crc(p + y + t) {
      CrcInjective(CrcFrom(c, x), CrcFrom(c, y), t);
      CrcOfWord(c, x[0], x[1], x[2]);
      CrcOfWord(c, y[0], y[1], y[2]);
      ShiftNInjective(Xor(c, Word(x[0], x[1], x[2])), Xor(c, Word(y[0], y[1], y[2])), 24);
      XorCancels(c, Word(x[0], x[1], x[2]), Word(y[0], y[1], y[2]));
      WordInjective(x[0], x[1], x[2], y[0], y[1], y[2]);
    }
  }

  lemma LeadingZeroByte(s: seq<bv8>)
    ensures Crc([0] + s) == Crc(s)
  {
    CrcSplits(0, [0], s);
    CrcOfThree(0, 0, 0, 0);
    hide TableEntry;
    CarryByte();
    assert Step(0, 0) == 0;
  }

  /** Any change confined to three consecutive bytes changes the CRC. */
  lemma {:induction false} CrcDetectsBurst(p: seq<bv8>, x: seq<bv8>, y: seq<bv8>, t: seq<bv8>)
    requires |x| == |y| <= 3 && x != y
    ensures Crc(p + x + t) != Crc(p + y + t)
    decreases 3 - |x|
  {
    hide Step;
    if |x| == 3 {
      DetectsThreeBytes(p, x, y, t);
    } else {
      LeadingZeroByte(p + x + t);
      LeadingZeroByte(p + y + t);
      var q := [0] + p;
      var k := |q| - 1;
      assert [0] + (p + x + t) == q[..k] + ([q[k]] + x) + t;
      assert [0] + (p + y + t) == q[..k] + ([q[k]] + y) + t;
      assert ([q[k]] + x)[1..] == x && ([q[k]] + y)[1..] == y;
      CrcDetectsBurst(q[..k], [q[k]] + x, [q[k]] + y, t);
    }
  }
}

/** The CRC-24Q register read as a number is the remainder of a polynomial division. */
module Crc24Polynomial {
  import opened Gf2
  import C = Crc24

  const G := Divisor(24, 0x864CFB)

  lemma Powers()
    ensures Pow(23) == 0x800000 && Pow(24) == 0x1000000 && G.Valid()
  {
    PowAdds(8, 8);
    PowAdds(8, 16);
  }

  function LastDigit(r: bv24): nat {
    if r & 1 == 1 then 1 else 0
  }

  function Half(r: bv24): (h: bv24)
    ensures r != 0 ==> h as nat < r as nat
  {
    r >> 1
  }

  /** A word as the number with the same digits. */
  function Num(r: bv24): nat
    decreases r as nat
  {
    if r == 0 then 0 else LastDigit(r) + 2 * Num(Half(r))
  }

  lemma NumDigits(r: bv24)
    ensures Num(r) == LastDigit(r) + 2 * Num(Half(r))
  {
    if r == 0 {
      assert Half(0) == 0 && LastDigit(0) == 0;
    }
  }

  lemma DigitsAdd(x: bv24, y: bv24)
    ensures Half(C.Xor(x, y)) == C.Xor(Half(x), Half(y))
    ensures LastDigit(C.Xor(x, y)) == Flip(LastDigit(x), LastDigit(y))
  {
  }

  lemma {:induction false} NumAdds(x: bv24, y: bv24)
    ensures Num(C.Xor(x, y)) == Xor(Num(x), Num(y))
    decreases x as nat + y as nat
  {
    hide C.Xor, Xor, Num, Half, LastDigit;
    NumZero();
    if x == 0 {
      C.XorComm(x, y);
      C.XorZero(y);
      XorZero(Num(y));
    } else if y == 0 {
      C.XorZero(x);
      XorZero(Num(x));
    } else {
      DigitsAdd(x, y);
      NumAdds(Half(x), Half(y));
      NumDigits(x);
      NumDigits(y);
      NumDigits(C.Xor(x, y));
      LastIsDigit(x);
      LastIsDigit(y);
      XorDigits(Num(Half(x)), LastDigit(x), Num(Half(y)), LastDigit(y));
    }
  }

  lemma NumZero()
    ensures Num(0) == 0
  {
  }

  lemma LastIsDigit(r: bv24)
    ensures LastDigit(r) < 2
  {
  }

  lemma NumTwice(r: bv24)
    requires r < 0x800000
    ensures Num(C.Twice(r)) == 2 * Num(r)
  {
    NumDigits(C.Twice(r));
    assert Half(C.Twice(r)) == r && LastDigit(C.Twice(r)) == 0;
  }

  predicate ShiftedOut(r: bv24, n: nat)
    decreases n
  {
    if n == 0 then r == 0 else ShiftedOut(Half(r), n - 1)
  }

  lemma {:induction false} NumBound(r: bv24, n: nat)
    requires ShiftedOut(r, n)
    ensures Num(r) < Pow(n)
    decreases n
  {
    hide Half, LastDigit, Num;
    if n == 0 {
      NumZero();
    } else {
      NumBound(Half(r), n - 1);
      NumDigits(r);
      LastIsDigit(r);
    }
  }

  function Half8(r: bv24): bv24 {
    r >> 8
  }

  lemma HalfEightTimes(r: bv24)
    ensures Half(Half(Half(Half(Half(Half(Half(Half(r)))))))) == Half8(r)
  {
  }

  lemma ByteOut(r: bv24, n: nat)
    requires ShiftedOut(Half8(r), n)
    ensures ShiftedOut(r, n + 8)
  {
    hide Half, Half8;
    HalfEightTimes(r);
    assert ShiftedOut(Half(Half(Half(Half(Half(Half(r)))))), n + 2);
    assert ShiftedOut(Half(Half(Half(Half(r)))), n + 4);
    assert ShiftedOut(Half(Half(r)), n + 6);
  }

  lemma TopIsSmall(r: bv24)
    ensures Half8(Half8(Half8(r))) == 0
    ensures r < 0x800000 ==> Half8(Half8(r)) < 0x80
  {
  }

  lemma SevenOut(t: bv24)
    requires t < 0x80
    ensures ShiftedOut(t, 7)
  {
  }

  lemma WordFits(r: bv24)
    ensures ShiftedOut(r, 24)
    ensures r < 0x800000 ==> ShiftedOut(r, 23)
  {
    hide Half8;
    TopIsSmall(r);
    if r < 0x800000 {
      SevenOut(Half8(Half8(r)));
      ByteOut(Half8(r), 7);
      ByteOut(r, 15);
    }
    ByteOut(Half8(Half8(r)), 0);
    ByteOut(Half8(r), 8);
    ByteOut(r, 16);
  }

  lemma NumGenerator()
    ensures Num(C.GENERATOR) == 0x864CFB
  {
    hide Num;
    NumZero();
    NumDigits(0x864CFB); NumDigits(0x43267D); NumDigits(0x21933E); NumDigits(0x10C99F); NumDigits(0x864CF);
    NumDigits(0x43267);
    NumDigits(0x21933); NumDigits(0x10C99); NumDigits(0x864C); NumDigits(0x4326); NumDigits(0x2193); NumDigits(0x10C9);
    NumDigits(0x864); NumDigits(0x432); NumDigits(0x219); NumDigits(0x10C); NumDigits(0x86); NumDigits(0x43);
    NumDigits(0x21); NumDigits(0x10); NumDigits(0x8); NumDigits(0x4); NumDigits(0x2); NumDigits(0x1);
  }

  lemma NumLead()
    ensures Num(0x800000) == 0x800000
  {
    hide Num;
    NumZero();
    NumDigits(0x800000); NumDigits(0x400000); NumDigits(0x200000); NumDigits(0x100000); NumDigits(0x80000);
    NumDigits(0x40000);
    NumDigits(0x20000); NumDigits(0x10000); NumDigits(0x8000); NumDigits(0x4000); NumDigits(0x2000); NumDigits(0x1000);
    NumDigits(0x800); NumDigits(0x400); NumDigits(0x200); NumDigits(0x100); NumDigits(0x80); NumDigits(0x40);
    NumDigits(0x20); NumDigits(0x10); NumDigits(0x8); NumDigits(0x4); NumDigits(0x2); NumDigits(0x1);
  }

  /** One step of the division, on words and on numbers. */
  lemma NumShift(r: bv24)
    ensures G.Valid() && Num(r) < Pow(24) && Num(C.Shift(r)) == Bring(G, Num(r), 0)
  {
    Powers();
    WordFits(r);
    NumBound(r, 24);
    if r < 0x800000 {
      NumBound(r, 23);
      assert C.Shift(r) == C.Twice(r);
      NumTwice(r);
    } else {
      NumShiftLead(r);
    }
  }

  function Rest(r: bv24): bv24 {
    C.Xor(0x800000, r)
  }

  lemma RestBelow(r: bv24)
    requires r >= 0x800000
    ensures Rest(r) < 0x800000
  {
  }

  lemma RestDoubles(r: bv24)
    requires r >= 0x800000
    ensures C.Shift(r) == C.Xor(C.Twice(Rest(r)), C.GENERATOR)
  {
    C.TwiceAdds(0x800000, r);
    assert C.Twice(0x800000) == 0;
    C.ShiftCarries(r);
    hide C.Xor, C.Shift, C.Twice;
    C.XorComm(0, C.Twice(r));
    C.XorZero(C.Twice(r));
  }

  lemma RestBack(r: bv24)
    ensures C.Xor(0x800000, Rest(r)) == r
  {
    hide C.Xor;
    C.XorAssoc(0x800000, 0x800000, r);
    C.XorSelf(0x800000);
    C.XorComm(0, r);
    C.XorZero(r);
  }

  lemma AddLead(n: nat)
    requires n < Pow(23)
    ensures Xor(Pow(23), n) == Pow(23) + n
  {
    hide Xor, Pow;
    UpIsProduct(1, 23);
    UpIsProduct(0, 23);
    XorSplit(1, 0, 0, n, 23);
    XorZero(1);
    XorZero(n);
  }

  lemma NumRest(r: bv24)
    requires r >= 0x800000
    ensures Num(Rest(r)) < Pow(23)
    ensures Num(r) == Pow(23) + Num(Rest(r))
  {
    RestBelow(r);
    hide C.Xor, Num, Xor, Pow, Rest;
    var y := Rest(r);
    WordFits(y);
    NumBound(y, 23);
    RestBack(r);
    NumAdds(0x800000, y);
    NumLead();
    Powers();
    AddLead(Num(y));
  }

  lemma NumShiftLead(r: bv24)
    requires r >= 0x800000
    ensures G.Valid() && Num(r) < Pow(24) && Num(C.Shift(r)) == Bring(G, Num(r), 0)
  {
    hide C.Xor, C.Shift, C.Twice, Num, Xor, Pow, Rest, Bring;
    RestBelow(r);
    RestDoubles(r);
    NumRest(r);
    var y := Rest(r);
    NumTwice(y);
    NumGenerator();
    NumAdds(C.Twice(y), C.GENERATOR);
    BringLead(Num(y));
  }

  lemma BringLead(m: nat)
    requires m < Pow(23)
    ensures G.Valid() && Pow(23) + m < Pow(24)
    ensures Bring(G, Pow(23) + m, 0) == Xor(2 * m, 0x864CFB)
  {
    Powers();
    hide Xor;
  }

  function DigitAt(b: bv8, k: bv4): (d: nat)
    requires k < 8
    ensures d < 2
  {
    if (b >> k) & 1 == 1 then 1 else 0
  }

  lemma NumBring(r: bv24, b: bv8, k: bv4)
    requires k < 8
    ensures G.Valid() && Num(r) < Pow(24) && Num(C.Bring(r, C.Digit(b, k))) == Bring(G, Num(r), DigitAt(b, k))
  {
    hide C.Xor, C.Shift, C.Digit, Num, Xor, Bring, DigitAt;
    NumOfDigit(b, k);
    NumShift(r);
    NumAdds(C.Shift(r), C.Digit(b, k));
    BringDigit(Num(r), DigitAt(b, k));
  }

  lemma BringDigit(n: nat, digit: nat)
    requires G.Valid() && n < Pow(24) && digit < 2
    ensures Bring(G, n, digit) == Xor(Bring(G, n, 0), digit)
  {
    hide Xor, Pow, Cancel;
    XorDigits(n, 0, 0, digit);
    XorZero(n);
    CancelAdds(G, 2 * n, digit);
    DigitStays(digit);
  }

  lemma DigitStays(digit: nat)
    requires digit < 2
    ensures G.Valid() && Cancel(G, digit) == digit
  {
    Powers();
  }

  lemma NumOfDigit(b: bv8, k: bv4)
    requires k < 8
    ensures Num(C.Digit(b, k)) == DigitAt(b, k)
  {
    if (b >> k) & 1 == 1 {
      NumDigits(1);
      assert Half(1) == 0 && LastDigit(1) == 1;
      NumZero();
    }
  }

  /** The digits of a byte, most significant first. */
  function ByteDigits(b: bv8): (d: digits)
    ensures |d| == 8
  {
    [DigitAt(b, 7), DigitAt(b, 6), DigitAt(b, 5), DigitAt(b, 4), DigitAt(b, 3), DigitAt(b, 2), DigitAt(b, 1),
        DigitAt(b, 0)]
  }

  function Digits(data: seq<bv8>): digits {
    if data == [] then [] else Digits(data[..|data| - 1]) + ByteDigits(data[|data| - 1])
  }

  lemma DivideEight(r: nat, d: digits)
    requires G.Valid() && r < Pow(24) && |d| == 8
    ensures Divide(G, r, d)
         == Bring(G, Bring(G, Bring(G,
             Bring(G, Bring(G, Bring(G, Bring(G, Bring(G, r, d[0]), d[1]), d[2]), d[3]), d[4]), d[5]), d[6]), d[7])
  {
    hide Bring, Pow;
    assert d[..0] == [] && d[..8] == d;
    DividePrefix(r, d, 0);
    DividePrefix(r, d, 1);
    DividePrefix(r, d, 2);
    DividePrefix(r, d, 3);
    DividePrefix(r, d, 4);
    DividePrefix(r, d, 5);
    DividePrefix(r, d, 6);
    DividePrefix(r, d, 7);
  }

  lemma DividePrefix(r: nat, d: digits, k: nat)
    requires G.Valid() && r < Pow(24) && k < |d|
    ensures Divide(G, r, d[..k + 1]) == Bring(G, Divide(G, r, d[..k]), d[k])
  {
    hide Bring, Pow;
    assert d[..k + 1][..k] == d[..k];
  }

  lemma NumBringByte(r: bv24, b: bv8)
    ensures G.Valid() && Num(r) < Pow(24) && Num(C.BringByte(r, b)) == Divide(G, Num(r), ByteDigits(b))
  {
    Powers();
    hide C.Bring, C.Digit, Num, Bring, DigitAt, Pow;
    NumShift(r);
    DivideEight(Num(r), ByteDigits(b));
    var r7 := C.Bring(r, C.Digit(b, 7));
    var r6 := C.Bring(r7, C.Digit(b, 6));
    var r5 := C.Bring(r6, C.Digit(b, 5));
    var r4 := C.Bring(r5, C.Digit(b, 4));
    var r3 := C.Bring(r4, C.Digit(b, 3));
    var r2 := C.Bring(r3, C.Digit(b, 2));
    var r1 := C.Bring(r2, C.Digit(b, 1));
    NumBring(r, b, 7);
    NumBring(r7, b, 6);
    NumBring(r6, b, 5);
    NumBring(r5, b, 4);
    NumBring(r4, b, 3);
    NumBring(r3, b, 2);
    NumBring(r2, b, 1);
    NumBring(r1, b, 0);
  }

  lemma {:induction false} NumDivide(data: seq<bv8>)
    ensures G.Valid() && Num(C.Divide(data)) == Divide(G, 0, Digits(data))
  {
    Powers();
    hide C.BringByte, Num, Bring, ByteDigits, Pow;
    NumZero();
    if data != [] {
      var d, b := data[..|data| - 1], data[|data| - 1];
      NumDivide(d);
      NumBringByte(C.Divide(d), b);
      DivideSplits(G, 0, Digits(d), ByteDigits(b));
    }
  }

  lemma {:induction false} NumShiftN(r: bv24, n: nat)
    ensures G.Valid() && Num(r) < Pow(24) && Num(C.ShiftN(r, n)) == Divide(G, Num(r), Zeros(n))
    decreases n
  {
    Powers();
    hide C.Shift, Num, Bring, Pow;
    NumShift(r);
    if n > 0 {
      NumShiftN(C.Shift(r), n - 1);
      assert [0] + Zeros(n - 1) == Zeros(n);
      assert [0][..0] == [];
      DivideSplits(G, Num(r), [0], Zeros(n - 1));
    }
  }

  /** The CRC, and nothing else, is the remainder of the message, moved up by 24 places, after division by the generator
      polynomial. */
  lemma CrcIsRemainder(data: seq<bv8>, r: nat)
    ensures IsRemainder(Value(Digits(data) + Zeros(24)), 0x1864CFB, 24, r) <==> r == Num(C.Crc(data))
  {
    Powers();
    hide C.Crc, C.Divide, C.ShiftN, Num, Divide, Pow, IsRemainder, Value;
    var m := Value(Digits(data) + Zeros(24));
    C.CrcIsDivision(data);
    NumDivide(data);
    NumShiftN(C.Divide(data), 24);
    DivideSplits(G, 0, Digits(data), Zeros(24));
    DivideIsRemainder(G, Digits(data) + Zeros(24));
    if IsRemainder(m, 0x1864CFB, 24, r) {
      GeneratorDegree();
      RemainderUnique(m, 0x1864CFB, 24, r, Num(C.Crc(data)));
    }
  }

  lemma GeneratorDegree()
    ensures Pow(24) <= 0x1864CFB < Pow(25)
  {
    Powers();
  }
}
