/** Reading the flash back after an upload: every byte once, and the same running hash. */
module HexVerify {
  import opened Bytes
  import opened HexImage
  import opened HexUpload
  import opened HexLayout
  import HexUploader
  import P = Protocols

  const MAX_VERIFY_CHUNK_SIZE := 1024

  /** The characters the device prints. */
  predicate UpperHex(c: byte) {
    48 <= c <= 57 || 65 <= c <= 70
  }

  predicate AllUpper(s: seq<byte>) {
    forall i :: 0 <= i < |s| ==> UpperHex(s[i])
  }

  lemma UpperDigit(c: byte)
    requires UpperHex(c)
    ensures P.DigitOrZero(c) == if 48 <= c <= 57 then c - 48 else c - 55
  {
  }

  // ----- what the device prints -----------------------------------------------------------------

  /** A page of the device: its characters from the address `start` to the end of the page. */
  predicate IsPage(start: nat, page: seq<byte>) {
    start <= PAGE_SIZE && |page| == 2 * (PAGE_SIZE - start) && AllUpper(page)
  }

  /** The characters of `n` bytes from an address on. */
  function Stored(start: nat, page: seq<byte>, from: nat, n: nat): (s: seq<byte>)
    requires IsPage(start, page) && start <= from && from + n <= PAGE_SIZE
    ensures |s| == 2 * n
  {
    page[2 * (from - start)..2 * (from - start + n)]
  }

  function LineSize(n: nat): nat {
    if n < 255 then n else 255
  }

  /** The answer to a download command: lines of at most 255 bytes, each with its address in front. */
  function Dump(start: nat, page: seq<byte>, from: nat, n: nat): seq<byte>
    requires IsPage(start, page) && start <= from && from + n <= PAGE_SIZE
    decreases n
  {
    if n == 0 then []
    else
      var m := LineSize(n);
      HexText(from, 4) + [61] + Stored(start, page, from, m) + [13, 10] + Dump(start, page, from + m, n - m)
  }

  /** The number of lines a download of `n` bytes takes. */
  function Lines(n: nat): nat {
    (n + 254) / 255
  }

  lemma AddressIsHex(n: nat)
    requires n < PAGE_SIZE
    ensures HexText(n, 4)[0] != 88
  {
    AddressText(n);
  }

  /** Every line adds seven characters to its data, so the answer is as long as the read that waits for it. */
  lemma {:induction false} DumpLength(start: nat, page: seq<byte>, from: nat, n: nat)
    requires IsPage(start, page) && start <= from && from + n <= PAGE_SIZE
    ensures |Dump(start, page, from, n)| == 7 * Lines(n) + 2 * n
    decreases n
  {
    hide HexText, IsPage;
    if n > 0 {
      var m := LineSize(n);
      AddressRoundTrip(from);
      DumpLength(start, page, from + m, n - m);
      MoreLines(n);
    }
  }

  lemma MoreLines(n: nat)
    requires n > 0
    ensures Lines(n) == 1 + Lines(n - LineSize(n))
  {
  }

  // ----- the bytes written to the file ------------------------------------------------------------

  /** The bytes that pairs of characters spell. */
  function Spelled(s: seq<byte>): seq<byte> {
    if |s| < 2 then [] else Spelled(s[..|s| - 2]) + [Byte(P.DigitOrZero(s[|s| - 2]) * 16, P.DigitOrZero(s[|s| - 1]))]
  }

  function Byte(high: nat, low: nat): byte {
    (high + low) % 256
  }

  /** The characters taken so far, and what of them is in the file and in hand. */
  predicate Assembled(seen: seq<byte>, file: seq<byte>, inHand: int) {
    && file == Spelled(seen[..|seen| / 2 * 2])
    && inHand == if |seen| % 2 == 0 then -1 else P.DigitOrZero(seen[|seen| - 1]) * 16
  }

  lemma Assemble(seen: seq<byte>, file: seq<byte>, inHand: int, c: byte)
    requires Assembled(seen, file, inHand)
    ensures inHand == -1 ==> Assembled(seen + [c], file, P.DigitOrZero(c) * 16)
    ensures inHand != -1 ==> inHand >= 0 && Assembled(seen + [c], file + [Byte(inHand, P.DigitOrZero(c))], -1)
  {
    hide P.DigitOrZero;
    var more, k := seen + [c], |seen| / 2 * 2;
    if |seen| % 2 == 0 {
      assert more[..|more| / 2 * 2] == seen[..k];
    } else {
      assert more[..|more| / 2 * 2] == more && more[..|more| - 2] == seen[..k];
    }
  }

  class Verifier {
    var realCheckSum: nat
    var totalCharCount: nat
    var verifyByte: int
    var file: seq<byte>
    var c: byte                     // the last character looked at, kept from line to line
    ghost var seen: seq<byte>       // the characters taken so far

    ghost predicate Valid()
      reads this
    {
      && realCheckSum == Hash(HASH_START, seen) && AllUpper(seen)
      && Assembled(seen, file, verifyByte)
    }

    constructor (appOffset: nat)
      ensures Valid() && seen == [] && totalCharCount == 2 * appOffset
    {
      realCheckSum, totalCharCount, verifyByte, file, c, seen := HASH_START, 2 * appOffset, -1, [], 0, [];
    }

    /** Takes a hex character into the hash and into the file. */
    method Take()
      requires Valid() && UpperHex(c)
      modifies this`realCheckSum, this`totalCharCount, this`verifyByte, this`file, this`seen
      ensures Valid() && seen == old(seen) + [c] && totalCharCount == old(totalCharCount) + 1
    {
      hide HashAdd, Assembled, Byte, P.DigitOrZero, Spelled;
      var digit: nat := if 48 <= c <= 57 then c - 48 else c - 65 + 10;
      UpperDigit(c);
      Assemble(seen, file, verifyByte, c);
      totalCharCount := totalCharCount + 1;
      realCheckSum := HashAdd(realCheckSum, c);
      ghost var more := seen + [c];
      assert more[..|more| - 1] == seen;
      if verifyByte == -1 {
        verifyByte := digit * 16;
      } else {
        file := file + [Byte(verifyByte, digit)];
        verifyByte := -1;
      }
      seen := more;
    }

    /** One printed line: its address must be the one expected, its characters are taken. A line cut off behind its
        address is accepted if and only if the line before it ended well. */
    method Line(buf: seq<byte>, at: nat, from: nat, ghost start: nat, ghost page: seq<byte>, ghost n: nat)
      returns (ok: bool, next: nat, pageChars: nat)
      requires Valid() && at < |buf|
      modifies this
      ensures Valid() && (ok ==> at < next <= |buf|)
      ensures at + 5 == |buf| && buf[at] != 88 && buf[at + 4] == 61 && Strtol(buf[at..at + 4]) == from ==>
        (ok <==> old(c) == 10) && pageChars == 0 && seen == old(seen)
      ensures Printed(buf, at, start, page, from, n) ==>
        && ok && pageChars == 2 * LineSize(n) && Printed(buf, next, start, page, from + LineSize(n), n - LineSize(n))
        && seen == old(seen) + Stored(start, page, from, LineSize(n))
           && totalCharCount == old(totalCharCount) + pageChars
    {
      hide IsPage, Assembled, Hash, HexText, Strtol, AllUpper, Dump, Stored;
      ghost var printed := Printed(buf, at, start, page, from, n);
      ghost var data := if printed then Stored(start, page, from, LineSize(n)) else [];
      if printed {
        SomeLeft(buf, at, start, page, from, n);
        AddressRoundTrip(from);
        AddressIsHex(from);
        LineParts(buf, at, start, page, from, n);
        StoredUpper(start, page, from, LineSize(n));
      }
      next, pageChars := at, 0;
      if next > |buf| - 5 {
        return false, next, 0;
      }
      if buf[next] == 88 {
        return false, next, 0;
      }
      next := next + 4;
      if buf[next] != 61 {
        return false, next, 0;
      }
      if Strtol(buf[next - 4..next]) != from {
        return false, next, 0;
      }
      next := next + 1;
      ok, next, pageChars := Characters(buf, next, data, printed);
      if !ok || c != 10 {
        return false, next, pageChars;
      }
      return true, next, pageChars;
    }

    /** Takes characters up to the end of the line. */
    method Characters(buf: seq<byte>, at: nat, ghost data: seq<byte>, ghost printed: bool)
      returns (ok: bool, next: nat, pageChars: nat)
      requires Valid() && at <= |buf|
      requires printed ==> LineAt(buf, at, data)
      modifies this
      ensures Valid() && (ok ==> at <= next <= |buf|)
      ensures at == |buf| ==> ok && c == old(c) && pageChars == 0 && seen == old(seen)
      ensures printed ==>
        && ok && c == 10 && next == at + |data| + 2 && pageChars == |data|
        && seen == old(seen) + data && totalCharCount == old(totalCharCount) + |data|
    {
      hide Assembled, Hash, AllUpper;
      next, pageChars := at, 0;
      var ended := false;
      assert data[..0] == [] && old(seen) + [] == old(seen);
      while next < |buf| && !ended
        invariant at <= next <= |buf| && Valid() && (ended ==> c == 10)
        invariant next == at ==> !ended && c == old(c) && pageChars == 0 && seen == old(seen)
        invariant printed ==>
          && next <= at + |data| + 2 && (ended <==> next == at + |data| + 2)
          && pageChars == (if next <= at + |data| then next - at else |data|)
          && seen == old(seen) + data[..pageChars] && totalCharCount == old(totalCharCount) + pageChars
        decreases |buf| - next
      {
        if printed && next < at + |data| {
          assert buf[at + (next - at)] == data[next - at] && UpperHex(data[next - at]);
        }
        c := buf[next];
        next := next + 1;
        if 48 <= c <= 57 || 65 <= c <= 70 {
          Take();
          pageChars := pageChars + 1;
          if printed {
            assert data[..pageChars] == data[..pageChars - 1] + [c];
          }
        } else if c == 10 {
          ended := true;
        } else if c != 13 {
          return false, next, pageChars;
        }
      }
      assert data[..|data|] == data;
      return true, next, pageChars;
    }

    /** The answer to one download command. */
    method Chunk(buf: seq<byte>, from: nat, ghost start: nat, ghost page: seq<byte>, ghost n: nat)
        returns (ok: bool, pageOffset: nat)
      requires Valid()
      modifies this
      ensures Valid() && pageOffset >= from
      ensures Printed(buf, 0, start, page, from, n) ==>
        && ok && pageOffset == from + n && start <= from && from + n <= PAGE_SIZE && IsPage(start, page)
        && seen == old(seen) + Stored(start, page, from, n) && totalCharCount == old(totalCharCount) + 2 * n
    {
      hide IsPage, Assembled, Hash, HexText, Strtol, AllUpper, Dump, Stored;
      ghost var printed := Printed(buf, 0, start, page, from, n);
      ghost var left: nat := n;
      pageOffset := from;
      var at := 0;
      if printed {
        NothingStored(start, page, from);
        assert old(seen) + [] == old(seen);
      }
      while at < |buf|
        invariant at <= |buf| && Valid() && pageOffset >= from
        invariant printed ==>
          && left <= n && pageOffset == from + (n - left) && Printed(buf, at, start, page, pageOffset, left)
          && seen == old(seen) + Stored(start, page, from, n - left)
             && totalCharCount == old(totalCharCount) + 2 * (n - left)
      {
        var good, next, pageChars := Line(buf, at, pageOffset, start, page, left);
        if !good {
          return false, pageOffset;
        }
        if printed {
          SomeLeft(buf, at, start, page, pageOffset, left);
          StoredJoins(start, page, from, n - left, LineSize(left));
          left := left - LineSize(left);
        }
        at := next;
        pageOffset := pageOffset + pageChars / 2;
      }
      if printed {
        NoneLeft(buf, start, page, pageOffset, left);
      }
      return true, pageOffset;
    }

    /** One page: downloads of at most a chunk until its end. The original asks again and again if an answer has no
        data. */
    method Page(reply: (nat, nat, nat) -> seq<byte>, number: nat, from: nat, chunkSize: nat, ghost page: seq<byte>)
        returns (o: Outcome)
      requires Valid() && 1 <= chunkSize
      modifies this
      ensures Valid()
      ensures IsPage(from, page) && Answers(reply, number, from, page) ==>
        o == Ok && seen == old(seen) + page && totalCharCount == old(totalCharCount) + |page|
    {
      hide Assembled, Hash, HexText, Strtol, AllUpper, Dump, Printed;
      ghost var honest := IsPage(from, page) && Answers(reply, number, from, page);
      var pageOffset := from;
      if honest {
        NothingStored(from, page, from);
        assert old(seen) + [] == old(seen);
      }
      while pageOffset < PAGE_SIZE
        invariant Valid() && from <= pageOffset
        invariant honest ==>
          && pageOffset <= PAGE_SIZE
          && seen == old(seen) + Stored(from, page, from, pageOffset - from)
             && totalCharCount == old(totalCharCount) + 2 * (pageOffset - from)
        decreases PAGE_SIZE - pageOffset
      {
        var readCount := if chunkSize < PAGE_SIZE - pageOffset then chunkSize else PAGE_SIZE - pageOffset;
        var buf := Received(reply(number, pageOffset, readCount), 7 * Lines(readCount) + 2 * readCount);
        if honest {
          AnswerPrinted(reply, number, from, page, pageOffset, readCount);
          StoredJoins(from, page, from, pageOffset - from, readCount);
        }
        var ok, next := Chunk(buf, pageOffset, from, page, readCount);
        if !ok {
          return Error;
        }
        if next == pageOffset {
          return Stray;
        }
        pageOffset := next;
      }
      return Ok;
    }
  }

  /** What a read of at most `n` characters returns. */
  function Received(s: seq<byte>, n: nat): seq<byte> {
    if |s| > n then s[..n] else s
  }

  /** The device prints what it has stored. */
  ghost predicate Answers(reply: (nat, nat, nat) -> seq<byte>, number: nat, start: nat, page: seq<byte>)
    requires IsPage(start, page)
  {
    forall from: nat, n: nat :: start <= from && from + n <= PAGE_SIZE ==>
        reply(number, from, n) == Dump(start, page, from, n)
  }

  lemma AnswerPrinted(reply: (nat, nat, nat) -> seq<byte>, number: nat, start: nat, page: seq<byte>, from: nat, n: nat)
    requires IsPage(start, page) && Answers(reply, number, start, page) && start <= from && from + n <= PAGE_SIZE
    ensures Printed(Received(reply(number, from, n), 7 * Lines(n) + 2 * n), 0, start, page, from, n)
  {
    hide IsPage, Dump;
    DumpLength(start, page, from, n);
    var s := Dump(start, page, from, n);
    assert s[0..] == s;
  }

  /** From a place in the buffer on there is what the device prints for `n` bytes. */
  predicate Printed(buf: seq<byte>, at: nat, start: nat, page: seq<byte>, from: nat, n: nat) {
    && IsPage(start, page) && start <= from && from + n <= PAGE_SIZE
    && at <= |buf| && buf[at..] == Dump(start, page, from, n)
  }

  /** Characters and the end of the line. */
  predicate LineAt(buf: seq<byte>, at: nat, data: seq<byte>) {
    && at + |data| + 2 <= |buf| && (forall i :: 0 <= i < |data| ==> buf[at + i] == data[i] && UpperHex(data[i]))
    && buf[at + |data|] == 13 && buf[at + |data| + 1] == 10
  }

  lemma SomeLeft(buf: seq<byte>, at: nat, start: nat, page: seq<byte>, from: nat, n: nat)
    requires Printed(buf, at, start, page, from, n) && at < |buf|
    ensures n > 0 && from < PAGE_SIZE
  {
  }

  lemma NoneLeft(buf: seq<byte>, start: nat, page: seq<byte>, from: nat, n: nat)
    requires Printed(buf, |buf|, start, page, from, n)
    ensures n == 0
  {
    DumpLength(start, page, from, n);
    hide Dump;
  }

  lemma NothingStored(start: nat, page: seq<byte>, from: nat)
    requires IsPage(start, page) && start <= from <= PAGE_SIZE
    ensures Stored(start, page, from, 0) == []
  {
  }

  lemma StoredJoins(start: nat, page: seq<byte>, from: nat, m: nat, n: nat)
    requires IsPage(start, page) && start <= from && from + m + n <= PAGE_SIZE
    ensures Stored(start, page, from, m) + Stored(start, page, from + m, n) == Stored(start, page, from, m + n)
  {
  }

  lemma StoredUpper(start: nat, page: seq<byte>, from: nat, n: nat)
    requires IsPage(start, page) && start <= from && from + n <= PAGE_SIZE
    ensures forall i :: 0 <= i < 2 * n ==> UpperHex(Stored(start, page, from, n)[i])
  {
  }

  /** Where the parts of the first printed line are. */
  lemma LineParts(buf: seq<byte>, at: nat, start: nat, page: seq<byte>, from: nat, n: nat)
    requires Printed(buf, at, start, page, from, n) && n > 0 && |HexText(from, 4)| == 4
    ensures var data := Stored(start, page, from, LineSize(n));
      && at + 5 <= |buf| && buf[at..at + 4] == HexText(from, 4) && buf[at] == HexText(from, 4)[0] && buf[at + 4] == 61
      && LineAt(buf, at + 5, data)
      && Printed(buf, at + 5 + |data| + 2, start, page, from + LineSize(n), n - LineSize(n))
  {
    StoredUpper(start, page, from, LineSize(n));
    hide IsPage, HexText, UpperHex;
    var m := LineSize(n);
    var rest, data := buf[at..], Stored(start, page, from, m);
    var more := Dump(start, page, from + m, n - m);
    hide Stored, Dump;
    assert Dump(start, page, from, n)
        == HexText(from, 4) + [61] + data + [13, 10] + more by { DumpUnfolds(start, page, from, n); }
    assert rest[..4] == HexText(from, 4) && rest[4] == 61 && rest[5..5 + |data|] == data
        && rest[5 + |data|] == 13 && rest[6 + |data|] == 10 && rest[7 + |data|..] == more;
  }

  lemma DumpUnfolds(start: nat, page: seq<byte>, from: nat, n: nat)
    requires IsPage(start, page) && start <= from && n > 0 && from + n <= PAGE_SIZE
    ensures var m := LineSize(n);
      Dump(start, page, from, n)
        == HexText(from, 4) + [61] + Stored(start, page, from, m) + [13, 10] + Dump(start, page, from + m, n - m)
  {
  }

  // ----- the whole image ------------------------------------------------------------------------

  /** The device answers every download command with what it has stored of the pages. */
  ghost predicate Honest(reply: (nat, nat, nat) -> seq<byte>, appOffset: nat, pages: seq<seq<byte>>) {
    forall k :: 0 <= k < |pages| ==> HonestAt(reply, appOffset, pages, k)
  }

  ghost predicate HonestAt(reply: (nat, nat, nat) -> seq<byte>, appOffset: nat, pages: seq<seq<byte>>, k: nat)
    requires k < |pages|
  {
    IsPage(Start(appOffset, k), pages[k]) ==> Answers(reply, k, Start(appOffset, k), pages[k])
  }

  predicate ArePages(appOffset: nat, pages: seq<seq<byte>>) {
    forall k :: 0 <= k < |pages| ==> IsPage(Start(appOffset, k), pages[k])
  }

  /** Every page is read back. Against a device that answers honestly every stored character is taken exactly once, in
      order, whatever the chunk size, and the outcome is whether the running hash is the expected one. */
  method VerifyImage(reply: (nat, nat, nat) -> seq<byte>, selects: nat -> bool, currentPage: int, appOffset: nat,
      verifySize: nat,
                     verifyCheckSum: nat, ghost pages: seq<seq<byte>>)
    returns (o: Outcome, file: seq<byte>, totalCharCount: nat)
    requires 1 <= verifySize <= MAX_VERIFY_CHUNK_SIZE
    ensures (&& ArePages(appOffset, pages) && Honest(reply, appOffset, pages)
             && |pages| == currentPage + 1 && forall k :: selects(k)) ==>
      && file == Spelled(Flatten(pages)) && totalCharCount == 2 * appOffset + |Flatten(pages)|
      && o == if Hash(HASH_START, Flatten(pages)) == verifyCheckSum then Ok else Error
  {
    hide IsPage, Hash, Spelled, HexText, Dump, Flatten, AllUpper;
    ghost var honest := ArePages(appOffset, pages) && Honest(reply, appOffset, pages) && |pages| == currentPage + 1
        && forall k :: selects(k);
    var v := new Verifier(appOffset);
    var chunkSize := if verifySize < PAGE_SIZE then verifySize else PAGE_SIZE;
    NoPages();
    var i := 0;
    while i <= currentPage
      invariant v.Valid() && 0 <= i && (honest ==> i <= |pages| && v.seen == Flatten(pages[..i]))
      invariant honest ==> v.totalCharCount == 2 * appOffset + |v.seen|
      decreases currentPage - i
    {
      if !selects(i) {
        return Error, v.file, v.totalCharCount;
      }
      ghost var page := if honest then pages[i] else [];
      if honest {
        assert HonestAt(reply, appOffset, pages, i);
        FlattenAppend(pages[..i], pages[i]);
        assert pages[..i + 1] == pages[..i] + [pages[i]];
      }
      o := v.Page(reply, i, if i == 0 then appOffset else 0, chunkSize, page);
      if o != Ok {
        return o, v.file, v.totalCharCount;
      }
      i := i + 1;
    }
    assert honest ==> pages[..i] == pages;
    if honest {
      EvenPages(appOffset, pages);
      WholeFile(v.seen, v.file, v.verifyByte);
    }
    if v.realCheckSum != verifyCheckSum {
      return Error, v.file, v.totalCharCount;
    }
    return Ok, v.file, v.totalCharCount;
  }

  lemma NoPages()
    ensures Flatten<byte>([]) == []
  {
  }

  lemma WholeFile(seen: seq<byte>, file: seq<byte>, inHand: int)
    requires Assembled(seen, file, inHand) && |seen| % 2 == 0
    ensures file == Spelled(seen)
  {
    assert seen[..|seen| / 2 * 2] == seen;
  }

  lemma {:induction false} EvenPages(appOffset: nat, pages: seq<seq<byte>>)
    requires ArePages(appOffset, pages)
    ensures |Flatten(pages)| % 2 == 0
    decreases |pages|
  {
    if pages != [] {
      var k := |pages| - 1;
      EvenPages(appOffset, pages[..k]);
      FlattenAppend(pages[..k], pages[k]);
      assert pages == pages[..k] + [pages[k]];
    }
  }

  // ----- an upload verified -----------------------------------------------------------------------

  /** The file spells its data in the characters the device prints. */
  predicate UpperBlocks(blocks: seq<Block>) {
    forall i :: 0 <= i < |blocks| ==> AllUpper(blocks[i].chars)
  }

  lemma {:induction false} LaidUpper(start: int, blocks: seq<Block>)
    requires UpperBlocks(blocks)
    ensures AllUpper(Laid(start, blocks))
    decreases |blocks|
  {
    if blocks != [] {
      LaidUpper(start, blocks[..|blocks| - 1]);
    }
  }

  lemma ImageIsPage(start: nat, blocks: seq<Block>)
    requires Ordered(start, blocks) && UpperBlocks(blocks)
    ensures IsPage(start, Image(start, blocks))
  {
    LaidLength(start, blocks);
    LaidUpper(start, blocks);
    hide Laid, Ordered;
  }

  predicate OrderedAt(appOffset: nat, pages: seq<seq<Block>>, k: nat)
    requires k < |pages|
  {
    Ordered(Start(appOffset, k), pages[k])
  }

  ghost predicate AllOrdered(appOffset: nat, pages: seq<seq<Block>>) {
    forall k :: 0 <= k < |pages| ==> OrderedAt(appOffset, pages, k)
  }

  lemma ExtendOrdered(appOffset: nat, l: Layout, r: HexRecord)
    requires appOffset <= PAGE_SIZE && AllOrdered(appOffset, l.pages) && Extend(appOffset, l, r).Some?
    ensures AllOrdered(appOffset, Extend(appOffset, l, r).value.pages)
  {
    hide Placed;
    var more := Extend(appOffset, l, r).value.pages;
    forall k | 0 <= k < |more| ensures OrderedAt(appOffset, more, k) {
      if k < |l.pages| {
        assert OrderedAt(appOffset, l.pages, k);
      }
    }
  }

  /** The blocks of a well-formed file come in order and stay inside their pages. */
  lemma {:induction false} LayoutOrdered(appOffset: nat, l: Layout, lines: seq<seq<byte>>)
    requires appOffset <= PAGE_SIZE && AllOrdered(appOffset, l.pages) && LayoutFrom(appOffset, l, lines).Some?
    ensures AllOrdered(appOffset, LayoutFrom(appOffset, l, lines).value.pages)
    decreases |lines|
  {
    hide Parsed, Extend, AllOrdered;
    if lines != [] {
      ExtendOrdered(appOffset, l, Parsed(lines[0]));
      LayoutOrdered(appOffset, Extend(appOffset, l, Parsed(lines[0])).value, lines[1..]);
    }
  }

  lemma {:induction false} ImagesArePages(appOffset: nat, pages: seq<seq<Block>>)
    requires forall k :: 0 <= k < |pages| ==> OrderedAt(appOffset, pages, k) && UpperBlocks(pages[k])
    ensures ArePages(appOffset, Images(appOffset, pages))
    decreases |pages|
  {
    hide Ordered, UpperBlocks, IsPage, Image;
    if pages != [] {
      var k := |pages| - 1;
      assert forall i :: 0 <= i < k ==> OrderedAt(appOffset, pages, i) ==> OrderedAt(appOffset, pages[..k], i);
      ImagesArePages(appOffset, pages[..k]);
      assert OrderedAt(appOffset, pages, k);
      ImageIsPage(Start(appOffset, k), pages[k]);
    }
  }

  /** A file is uploaded and read back. If the upload succeeds, every fill went through, the file is well-formed with
      upper-case digits, and the device returns what the file describes, then the verification succeeds. */
  method UploadAndVerify(dev: HexUploader.Device, appOffset: nat, lines: seq<seq<byte>>,
      reply: (nat, nat, nat) -> seq<byte>,
                         selects: nat -> bool, verifySize: nat)
    returns (uploaded: Outcome, verified: Outcome, file: seq<byte>, used: nat, ghost filled: bool)
    requires appOffset <= PAGE_SIZE && 1 <= verifySize <= MAX_VERIFY_CHUNK_SIZE
    modifies dev
    ensures used <= |lines|
    ensures var (r, n) := Process(Fresh(appOffset, old(dev.Model())), lines);
      uploaded == r.outcome && filled == r.fills && used == n
    ensures uploaded == Ok && filled && LayoutOf(appOffset, lines[..used]).Some? ==>
      var l := LayoutOf(appOffset, lines[..used]).value;
      l.closed && (forall k :: 0 <= k < |l.pages| ==> UpperBlocks(l.pages[k]))
        && Honest(reply, appOffset, Images(appOffset, l.pages)) && (forall k :: selects(k)) ==>
          verified == Ok && file == Spelled(Flatten(Images(appOffset, l.pages)))
  {
    hide IsPage, Hash, Spelled, Flatten, UpperBlocks, Ordered, Images, Honest, ArePages, LayoutOf, Process;
    var u := new HexUploader.Uploader(dev, appOffset);
    ghost var line := dev.Model();
    uploaded, used, filled := u.ProcessHexFile(lines);
    verified, file := Error, [];
    if uploaded != Ok {
      return;
    }
    ghost var s := u.Model();
    ImagesIffFills(appOffset, line, lines);
    if LayoutOf(appOffset, lines[..used]).Some? {
      ghost var pages := LayoutOf(appOffset, lines[..used]).value.pages;
      PagesOrdered(appOffset, lines[..used]);
      if forall k :: 0 <= k < |pages| ==> UpperBlocks(pages[k]) {
        ImagesArePages(appOffset, pages);
      }
    }
    var total;
    verified, file, total := VerifyImage(reply, selects, u.currentPage, appOffset, verifySize, u.verifyCheckSum,
        PagesOf(s.log));
  }

  lemma PagesOrdered(appOffset: nat, lines: seq<seq<byte>>)
    requires appOffset <= PAGE_SIZE && LayoutOf(appOffset, lines).Some?
    ensures var pages := LayoutOf(appOffset, lines).value.pages; forall k :: 0 <= k < |pages| ==>
      OrderedAt(appOffset, pages, k)
  {
    hide LayoutFrom;
    LayoutOrdered(appOffset, Layout([], false), lines);
  }
}
