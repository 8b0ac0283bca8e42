/** What an Intel HEX file says a flash page should hold (Data Record and Extended Linear Address Record of the
    Intel Hexadecimal Object File Format Specification, Rev. A). Text is kept as character codes. */
module HexImage {
  import opened Bytes
  import P = Protocols

  const PAGE_SIZE := 65536
  const FILL: byte := 70    // the character F

  // ----- lines ----------------------------------------------------------------------------

  /** The line as the uploader sees it. */
  datatype HexRecord =
    | Data(addr: int, chars: seq<byte>)
    | Page(number: nat)
    | End
    | Other

  function Digits(s: seq<byte>, sofar: nat): nat {
    if s == [] then sofar
    else match P.HexDigit(s[0])
      case Some(d) => Digits(s[1..], 16 * sofar + d)
      case None => sofar
  }

  /** An optional 0x, then as many hex digits as there are. */
  function Magnitude(s: seq<byte>): nat {
    if |s| >= 3 && s[0] == 48 && (s[1] == 120 || s[1] == 88) && P.HexDigit(s[2]).Some? then Digits(s[2..], 0)
    else Digits(s, 0)
  }

  /** `strtol` in base 16: white space, a sign, the digits. */
  function Strtol(s: seq<byte>): int {
    if s == [] then 0
    else if 9 <= s[0] <= 13 || s[0] == 32 then Strtol(s[1..])
    else if s[0] == 45 then P.Minus(Magnitude(s[1..]))
    else if s[0] == 43 then Magnitude(s[1..])
    else Magnitude(s)
  }

  /** The first characters of an extended linear address record for one of the pages below 16. */
  const PAGE_START: seq<byte> := [58, 48, 50, 48, 48, 48, 48, 48, 52, 48]    // :020000040

  function Parsed(line: seq<byte>): HexRecord {
    if |line| > 12 && line[7] == 48 && line[8] == 48 then Data(Strtol(line[3..7]), line[9..|line| - 2])
    else if |line| >= 13 && line[..10] == PAGE_START then Page(P.DigitOrZero(line[12]))
    else if |line| > 10 && line[7] == 48 && line[8] == 49 then End
    else Other
  }

  /** An empty line, or one that fills the line buffer, is taken for the end of the file. */
  predicate EndsFile(line: seq<byte>) {
    |line| == 0 || |line| >= 1023
  }

  /** A four-digit address is read as the number it is. */
  lemma FourDigits(a: byte, b: byte, c: byte, d: byte)
    requires P.HexDigit(a).Some? && P.HexDigit(b).Some? && P.HexDigit(c).Some? && P.HexDigit(d).Some?
    ensures Strtol([a, b, c, d])
      == 4096 * P.DigitOrZero(a) + 256 * P.DigitOrZero(b) + 16 * P.DigitOrZero(c) + P.DigitOrZero(d)
  {
    hide P.HexDigit;
    var s := [a, b, c, d];
    assert NotSpace(a) && NotX(b) by { DigitKinds(a); DigitKinds(b); }
    assert s[1..] == [b, c, d] && s[1..][1..] == [c, d] && [c, d][1..] == [d] && [d][1..] == [];
    assert Digits([d], 256 * P.DigitOrZero(a) + 16 * P.DigitOrZero(b) + P.DigitOrZero(c))
        == 16 * (256 * P.DigitOrZero(a) + 16 * P.DigitOrZero(b) + P.DigitOrZero(c)) + P.DigitOrZero(d);
    assert Digits([c, d], 16 * P.DigitOrZero(a) + P.DigitOrZero(b))
        == Digits([d], 16 * (16 * P.DigitOrZero(a) + P.DigitOrZero(b)) + P.DigitOrZero(c));
    assert Digits([b, c, d], P.DigitOrZero(a)) == Digits([c, d], 16 * P.DigitOrZero(a) + P.DigitOrZero(b));
    assert Digits(s, 0) == Digits([b, c, d], P.DigitOrZero(a));
  }

  predicate NotSpace(c: byte) {
    !(9 <= c <= 13) && c != 32 && c != 45 && c != 43
  }

  predicate NotX(c: byte) {
    c != 120 && c != 88
  }

  lemma DigitKinds(c: byte)
    requires P.HexDigit(c).Some?
    ensures NotSpace(c) && NotX(c)
  {
  }

  // ----- pages ----------------------------------------------------------------------------

  /** Bytes of a page as hex characters, to be stored from an address on. */
  datatype Block = Block(addr: int, chars: seq<byte>)

  function Filling(bytes: int): (s: seq<byte>)
    ensures |s| == if bytes > 0 then 2 * bytes else 0
    ensures forall i :: 0 <= i < |s| ==> s[i] == FILL
  {
    seq(if bytes > 0 then 2 * bytes else 0, _ => FILL)
  }

  /** Where the next block of a page that begins at `start` is expected. */
  function EndOf(start: int, blocks: seq<Block>): int {
    if blocks == [] then start
    else
      var b := blocks[|blocks| - 1];
      b.addr + |b.chars| / 2
  }

  /** The blocks of a page come in order, do not overlap, and stay inside the page. */
  predicate Ordered(start: int, blocks: seq<Block>) {
    start <= PAGE_SIZE && forall i :: 0 <= i < |blocks| ==> Placed(start, blocks, i)
  }

  predicate Placed(start: int, blocks: seq<Block>, i: nat)
    requires i < |blocks|
  {
    var b := blocks[i];
    |b.chars| % 2 == 0 && EndOf(start, blocks[..i]) <= b.addr && b.addr + |b.chars| / 2 <= PAGE_SIZE
  }

  /** The blocks one behind the other, the gaps between them filled. */
  function Laid(start: int, blocks: seq<Block>): seq<byte> {
    if blocks == [] then []
    else
      var k := |blocks| - 1;
      Laid(start, blocks[..k]) + Filling(blocks[k].addr - EndOf(start, blocks[..k])) + blocks[k].chars
  }

  /** The whole page: what is behind the last block is filled as well. */
  function Image(start: int, blocks: seq<Block>): seq<byte> {
    Laid(start, blocks) + Filling(PAGE_SIZE - EndOf(start, blocks))
  }

  lemma OrderedPrefix(start: int, blocks: seq<Block>, k: nat)
    requires Ordered(start, blocks) && k <= |blocks|
    ensures Ordered(start, blocks[..k])
  {
    forall i | 0 <= i < k ensures Placed(start, blocks[..k], i) {
      assert Placed(start, blocks, i);
      assert blocks[..k][..i] == blocks[..i];
    }
  }

  lemma LaidAppend(start: int, blocks: seq<Block>, b: Block)
    ensures Laid(start, blocks + [b]) == Laid(start, blocks) + Filling(b.addr - EndOf(start, blocks)) + b.chars
    ensures EndOf(start, blocks + [b]) == b.addr + |b.chars| / 2
  {
    assert (blocks + [b])[..|blocks|] == blocks;
  }

  lemma {:induction false} LaidLength(start: int, blocks: seq<Block>)
    requires Ordered(start, blocks)
    ensures start <= EndOf(start, blocks) <= PAGE_SIZE
    ensures |Laid(start, blocks)| == 2 * (EndOf(start, blocks) - start)
    ensures |Image(start, blocks)| == 2 * (PAGE_SIZE - start)
    decreases |blocks|
  {
    if blocks != [] {
      var k := |blocks| - 1;
      OrderedPrefix(start, blocks, k);
      LaidLength(start, blocks[..k]);
      assert Placed(start, blocks, k);
    }
  }

  /** The address belongs to the block. */
  predicate Covers(b: Block, addr: int) {
    b.addr <= addr < b.addr + |b.chars| / 2
  }

  /** The pair of characters at an address of the page. */
  function PairAt(start: int, page: seq<byte>, addr: int): (byte, byte)
    requires start <= addr && 2 * (addr - start) + 1 < |page|
  {
    (page[2 * (addr - start)], page[2 * (addr - start) + 1])
  }

  /** Every address of a block holds the block's characters, every other address is filled. */
  predicate IsImage(start: int, blocks: seq<Block>, page: seq<byte>, addr: int)
    requires start <= addr && 2 * (addr - start) + 1 < |page|
  {
    && (forall i :: 0 <= i < |blocks| && Covers(blocks[i], addr) ==>
         PairAt(start, page, addr) == CharsAt(blocks[i], addr))
    && ((forall i :: 0 <= i < |blocks| ==> !Covers(blocks[i], addr)) ==> PairAt(start, page, addr) == (FILL, FILL))
  }

  function CharsAt(b: Block, addr: int): (byte, byte)
    requires Covers(b, addr)
  {
    (b.chars[2 * (addr - b.addr)], b.chars[2 * (addr - b.addr) + 1])
  }

  /** Nothing covers an address beyond the end. */
  lemma {:induction false} NoneBeyond(start: int, blocks: seq<Block>, addr: int)
    requires Ordered(start, blocks) && EndOf(start, blocks) <= addr
    ensures forall i :: 0 <= i < |blocks| ==> !Covers(blocks[i], addr)
    decreases |blocks|
  {
    if blocks != [] {
      var k := |blocks| - 1;
      OrderedPrefix(start, blocks, k);
      assert Placed(start, blocks, k);
      NoneBeyond(start, blocks[..k], addr);
      forall i | 0 <= i < |blocks| ensures !Covers(blocks[i], addr) {
        if i < k {
          assert blocks[..k][i] == blocks[i];
        }
      }
    }
  }

  lemma {:induction false} LaidIsImage(start: int, blocks: seq<Block>, addr: int)
    requires Ordered(start, blocks) && start <= addr < EndOf(start, blocks)
    ensures 2 * (addr - start) + 1 < |Laid(start, blocks)| && IsImage(start, blocks, Laid(start, blocks), addr)
    decreases |blocks|
  {
    LaidLength(start, blocks);
    var k, page := |blocks| - 1, Laid(start, blocks);
    var before, b := blocks[..k], blocks[k];
    OrderedPrefix(start, blocks, k);
    LaidLength(start, before);
    assert Placed(start, blocks, k);
    assert forall i :: 0 <= i < k ==> before[i] == blocks[i];
    if addr < EndOf(start, before) {
      LaidIsImage(start, before, addr);
      assert PairAt(start, page, addr) == PairAt(start, Laid(start, before), addr);
      OldCovers(start, before, b, page, addr);
    } else {
      NoneBeyond(start, before, addr);
      NewCovers(start, blocks, addr);
    }
  }

  lemma OldCovers(start: int, before: seq<Block>, b: Block, page: seq<byte>, addr: int)
    requires start <= addr && 2 * (addr - start) + 1 < |page| && IsImage(start, before, page, addr) && addr < b.addr
    ensures IsImage(start, before + [b], page, addr)
  {
    var blocks := before + [b];
    assert !Covers(b, addr);
    forall i | 0 <= i < |blocks| && Covers(blocks[i], addr) ensures PairAt(start, page, addr)
        == CharsAt(blocks[i], addr) {
      assert blocks[i] == before[i];
    }
    if forall i :: 0 <= i < |blocks| ==> !Covers(blocks[i], addr) {
      forall i | 0 <= i < |before| ensures !Covers(before[i], addr) {
        assert blocks[i] == before[i];
      }
    }
  }

  lemma NewCovers(start: int, blocks: seq<Block>, addr: int)
    requires Ordered(start, blocks) && blocks != [] && start <= addr < EndOf(start, blocks)
    requires EndOf(start, blocks[..|blocks| - 1]) <= addr
    requires forall i :: 0 <= i < |blocks| - 1 ==> !Covers(blocks[i], addr)
    ensures 2 * (addr - start) + 1 < |Laid(start, blocks)| && IsImage(start, blocks, Laid(start, blocks), addr)
  {
    LaidLength(start, blocks);
    var k, page := |blocks| - 1, Laid(start, blocks);
    var b, before := blocks[k], Laid(start, blocks[..k]);
    OrderedPrefix(start, blocks, k);
    LaidLength(start, blocks[..k]);
    var gap := Filling(b.addr - EndOf(start, blocks[..k]));
    assert Placed(start, blocks, k);
    hide Laid, EndOf, Ordered, Placed;
    var p := 2 * (addr - start);
    if addr < b.addr {
      InSecond(before, gap, b.chars, p);
      InSecond(before, gap, b.chars, p + 1);
      assert !Covers(b, addr);
    } else {
      InThird(before, gap, b.chars, p);
      InThird(before, gap, b.chars, p + 1);
      assert PairAt(start, page, addr) == CharsAt(b, addr);
    }
  }

  lemma InSecond(x: seq<byte>, y: seq<byte>, z: seq<byte>, i: nat)
    requires |x| <= i < |x| + |y|
    ensures (x + y + z)[i] == y[i - |x|]
  {
  }

  lemma InThird(x: seq<byte>, y: seq<byte>, z: seq<byte>, i: nat)
    requires |x| + |y| <= i < |x| + |y| + |z|
    ensures (x + y + z)[i] == z[i - |x| - |y|]
  {
  }

  /** The filled page is the image the file describes: its bytes at their addresses, FF elsewhere, to the end of the
      page. */
  lemma ImageHolds(start: int, blocks: seq<Block>, addr: int)
    requires Ordered(start, blocks) && start <= addr < PAGE_SIZE
    ensures 2 * (addr - start) + 1 < |Image(start, blocks)| && IsImage(start, blocks, Image(start, blocks), addr)
  {
    LaidLength(start, blocks);
    if addr < EndOf(start, blocks) {
      LaidIsImage(start, blocks, addr);
      assert PairAt(start, Image(start, blocks), addr) == PairAt(start, Laid(start, blocks), addr);
    } else {
      NoneBeyond(start, blocks, addr);
    }
  }
}
