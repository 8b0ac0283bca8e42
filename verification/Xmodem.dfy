/** The XMODEM-CRC sender. */
module Xmodem {
  import opened Bytes
  import opened Crc16

  const SOH: byte := 0x01
  const EOT: byte := 0x04
  const ACK: byte := 0x06
  const CAN: byte := 0x18
  const PING: byte := 67      // the character C
  const PAYLOAD := 128

  // ----- what should be sent ----------------------------------------------------------------------

  function Filler(n: nat): (s: seq<byte>)
    ensures |s| == n
  {
    seq(n, _ => 0xFF)
  }

  /** The number of blocks the data takes. */
  function Blocks(n: nat): nat {
    (n + 127) / 128
  }

  /** The data filled up to whole blocks. */
  function Padded(data: seq<byte>): (s: seq<byte>)
    ensures |s| == PAYLOAD * Blocks(|data|)
  {
    data + Filler(PAYLOAD * Blocks(|data|) - |data|)
  }

  function Low8(n: nat): byte {
    n % 256
  }

  /** A block on the line: start, number and its complement, payload, checksum with the high byte first. */
  function Block(number: nat, payload: seq<byte>): seq<byte> {
    [SOH, Low8(number), 255 - Low8(number)] + payload + [Hi(Crc(payload)), Lo(Crc(payload))]
  }

  /** The acknowledgements among the answers. */
  function Acks(answers: seq<byte>): nat {
    if answers == [] then 0 else Acks(answers[..|answers| - 1]) + if answers[|answers| - 1] == ACK then 1 else 0
  }

  /** What a receiver keeps: the payload of every block that it acknowledged. */
  function Delivered(blocks: seq<seq<byte>>, answers: seq<byte>): seq<byte>
    requires |blocks| == |answers| && forall i :: 0 <= i < |blocks| ==> |blocks[i]| == PAYLOAD + 5
  {
    if blocks == [] then []
    else
      var k := |blocks| - 1;
      Delivered(blocks[..k], answers[..k]) + if answers[k] == ACK then blocks[k][3..3 + PAYLOAD] else []
  }

  /** The numbers of the blocks it acknowledged. */
  function Numbers(blocks: seq<seq<byte>>, answers: seq<byte>): seq<byte>
    requires |blocks| == |answers| && forall i :: 0 <= i < |blocks| ==> |blocks[i]| == PAYLOAD + 5
  {
    if blocks == [] then []
    else
      var k := |blocks| - 1;
      Numbers(blocks[..k], answers[..k]) + if answers[k] == ACK then [blocks[k][1]] else []
  }

  /** Whether the writes from the `k`th on and the answers let the transfer of `left` blocks succeed. */
  predicate Succeeds(writes: nat -> bool, k: nat, left: nat, answers: seq<byte>)
    decreases |answers|
  {
    && writes(k) && answers != []
    && if left == 0 then answers[0] == ACK
       else if answers[0] == ACK then Succeeds(writes, k + 1, left - 1, answers[1..])
       else answers[0] != CAN && Succeeds(writes, k + 1, left, answers[1..])
  }

  /** The answers behind the first ping. */
  function AfterPing(answers: seq<byte>): Option<seq<byte>> {
    if answers == [] then None
    else if answers[0] == PING then Some(answers[1..])
    else AfterPing(answers[1..])
  }

  // ----- the line ---------------------------------------------------------------------------------

  /** The serial line: whether each write goes through, and the answers until reads begin to fail. */
  class Line {
    const writes: nat -> bool
    const answers: seq<byte>
    var read: nat
    var written: nat
    var sent: seq<seq<byte>>

    ghost predicate Valid()
      reads this
    {
      read <= |answers|
    }

    constructor (writes: nat -> bool, answers: seq<byte>)
      ensures Valid() && read == 0 && written == 0 && sent == [] && this.writes == writes && this.answers == answers
    {
      this.writes, this.answers := writes, answers;
      read, written, sent := 0, 0, [];
    }

    method Write(bytes: seq<byte>) returns (ok: bool)
      requires Valid()
      modifies this
      ensures Valid() && read == old(read) && written == old(written) + 1 && ok == writes(old(written))
      ensures sent == if ok then old(sent) + [bytes] else old(sent)
    {
      ok := writes(written);
      written := written + 1;
      if ok {
        sent := sent + [bytes];
      }
    }

    method Read() returns (ok: bool, b: byte)
      requires Valid()
      modifies this
      ensures Valid() && sent == old(sent) && written == old(written) && ok == (old(read) < |answers|)
      ensures ok ==> read == old(read) + 1 && b == answers[old(read)]
      ensures !ok ==> read == old(read)
    {
      if read == |answers| {
        return false, 0;
      }
      read := read + 1;
      return true, answers[read - 1];
    }
  }

  /** Waits for the receiver's ping. */
  method AwaitPing(line: Line) returns (ok: bool)
    requires line.Valid() && line.read == 0
    modifies line
    ensures line.Valid() && line.sent == old(line.sent) && line.written == old(line.written)
    ensures ok == AfterPing(line.answers).Some?
    ensures ok ==> AfterPing(line.answers).value == line.answers[line.read..]
  {
    assert line.answers[0..] == line.answers;
    while true
      invariant line.Valid() && line.sent == old(line.sent) && line.written == old(line.written)
      invariant AfterPing(line.answers) == AfterPing(line.answers[line.read..])
      decreases |line.answers| - line.read
    {
      ghost var rest := line.answers[line.read..];
      var answer;
      ok, answer := line.Read();
      if !ok {
        return;
      }
      assert rest[1..] == line.answers[line.read..];
      if answer == PING {
        return;
      }
    }
  }

  /** The blocks written so far, with the answers they got, as a sender that repeats a block until it is acknowledged
      writes them. */
  predicate Faithful(data: seq<byte>, blocks: seq<seq<byte>>, answers: seq<byte>) {
    forall i :: 0 <= i < |blocks| ==> i <= |answers| && FaithfulAt(data, blocks[i], answers[..i])
  }

  /** After these answers, this is the next block. */
  predicate FaithfulAt(data: seq<byte>, block: seq<byte>, answers: seq<byte>) {
    var k := Acks(answers);
    k < Blocks(|data|) && block == Block(k + 1, Padded(data)[PAYLOAD * k..PAYLOAD * (k + 1)])
  }

  lemma Sizes(data: seq<byte>, blocks: seq<seq<byte>>, answers: seq<byte>)
    requires Faithful(data, blocks, answers)
    ensures forall i :: 0 <= i < |blocks| ==> |blocks[i]| == PAYLOAD + 5
  {
    hide Padded, Crc;
    forall i | 0 <= i < |blocks| ensures |blocks[i]| == PAYLOAD + 5 {
      assert FaithfulAt(data, blocks[i], answers[..i]);
    }
  }

  /** One more block and its answer. */
  lemma BlockKept(blocks: seq<seq<byte>>, answers: seq<byte>)
    requires |blocks| == |answers| > 0 && forall i :: 0 <= i < |blocks| ==> |blocks[i]| == PAYLOAD + 5
    ensures var n := |blocks| - 1;
      && Delivered(blocks, answers)
         == Delivered(blocks[..n], answers[..n]) + (if answers[n] == ACK then blocks[n][3..3 + PAYLOAD] else [])
      && Numbers(blocks, answers)
         == Numbers(blocks[..n], answers[..n]) + (if answers[n] == ACK then [blocks[n][1]] else [])
      && Acks(answers) == Acks(answers[..n]) + (if answers[n] == ACK then 1 else 0)
  {
  }

  lemma BlockParts(number: nat, payload: seq<byte>)
    requires |payload| == PAYLOAD
    ensures var b := Block(number, payload); |b| == PAYLOAD + 5 && b[1] == Low8(number) && b[3..3 + PAYLOAD] == payload
  {
    hide Crc, Low8;
  }

  lemma ExpectedBlock(data: seq<byte>, block: seq<byte>, answers: seq<byte>)
    requires FaithfulAt(data, block, answers)
    ensures var k := Acks(answers);
      && k < Blocks(|data|) && |block| == PAYLOAD + 5 && block[1] == Low8(k + 1)
      && PAYLOAD * (k + 1) <= |Padded(data)| && block[3..3 + PAYLOAD] == Padded(data)[PAYLOAD * k..PAYLOAD * (k + 1)]
  {
    hide Block, Padded, Acks, Blocks, Low8;
    var k := Acks(answers);
    BlockParts(k + 1, Padded(data)[PAYLOAD * k..PAYLOAD * (k + 1)]);
  }

  /** A receiver that keeps what it acknowledges has received the beginning of the data, in blocks numbered 1, 2, 3, ...
      modulo 256. */
  lemma {:induction false} ReceivedInOrder(data: seq<byte>, blocks: seq<seq<byte>>, answers: seq<byte>)
    requires |blocks| == |answers| && Faithful(data, blocks, answers)
    ensures forall i :: 0 <= i < |blocks| ==> |blocks[i]| == PAYLOAD + 5
    ensures Acks(answers) <= Blocks(|data|)
    ensures Delivered(blocks, answers) == Padded(data)[..PAYLOAD * Acks(answers)]
    ensures |Numbers(blocks, answers)| == Acks(answers)
    ensures forall i :: 0 <= i < Acks(answers) ==> Numbers(blocks, answers)[i] == Low8(i + 1)
    decreases |blocks|
  {
    hide *;
    Sizes(data, blocks, answers);
    if blocks == [] {
      NothingKept(data);
    } else {
      var n := |blocks| - 1;
      FaithfulPrefix(data, blocks, answers, n);
      FaithfulLast(data, blocks, answers);
      ReceivedInOrder(data, blocks[..n], answers[..n]);
      BlockKept(blocks, answers);
      ExpectedBlock(data, blocks[n], answers[..n]);
      var k := Acks(answers[..n]);
      Joins(Padded(data), PAYLOAD * k, PAYLOAD * (k + 1));
    }
  }

  lemma NothingKept(data: seq<byte>)
    ensures Acks([]) == 0 && Delivered([], []) == Padded(data)[..0] && Numbers([], []) == []
  {
  }

  lemma FaithfulLast(data: seq<byte>, blocks: seq<seq<byte>>, answers: seq<byte>)
    requires |blocks| == |answers| > 0 && Faithful(data, blocks, answers)
    ensures FaithfulAt(data, blocks[|blocks| - 1], answers[..|blocks| - 1])
  {
  }

  lemma Joins(s: seq<byte>, a: nat, b: nat)
    requires a <= b <= |s|
    ensures s[..a] + s[a..b] == s[..b]
  {
  }

  lemma FaithfulPrefix(data: seq<byte>, blocks: seq<seq<byte>>, answers: seq<byte>, n: nat)
    requires Faithful(data, blocks, answers) && n <= |blocks| && n <= |answers|
    ensures Faithful(data, blocks[..n], answers[..n])
  {
    hide FaithfulAt;
    forall i | 0 <= i < n ensures i <= |answers[..n]| && FaithfulAt(data, blocks[..n][i], answers[..n][..i]) {
      assert answers[..n][..i] == answers[..i];
      assert FaithfulAt(data, blocks[i], answers[..i]);
    }
  }

  /** Every block that goes out passes the receiver's checks: its number and complement add up to 255, and payload and
      checksum together leave no remainder. */
  lemma BlockChecks(number: nat, payload: seq<byte>)
    requires |payload| == PAYLOAD
    ensures var b := Block(number, payload);
      |b| == PAYLOAD + 5 && b[1] + b[2] == 255 && b[3..3 + PAYLOAD] == payload && Crc(b[3..]) == 0
  {
    hide Crc;
    var b := Block(number, payload);
    assert b[3..] == payload + [Hi(Crc(payload)), Lo(Crc(payload))];
    ResidueIsZero(payload);
  }

  // ----- the sender -------------------------------------------------------------------------------

  lemma AcksAppend(heard: seq<byte>, b: byte)
    ensures Acks(heard + [b]) == Acks(heard) + if b == ACK then 1 else 0
  {
    assert (heard + [b])[..|heard + [b]| - 1] == heard;
  }

  lemma FaithfulMore(data: seq<byte>, blocks: seq<seq<byte>>, heard: seq<byte>, block: seq<byte>)
    requires Faithful(data, blocks, heard) && |blocks| == |heard| && FaithfulAt(data, block, heard)
    ensures Faithful(data, blocks + [block], heard)
  {
    hide FaithfulAt;
    assert heard[..|heard|] == heard;
  }

  lemma FaithfulHears(data: seq<byte>, blocks: seq<seq<byte>>, heard: seq<byte>, b: byte)
    requires Faithful(data, blocks, heard) && |blocks| == |heard| + 1
    ensures Faithful(data, blocks, heard + [b])
  {
    hide FaithfulAt;
    forall i | 0 <= i < |blocks| ensures i <= |heard + [b]| && FaithfulAt(data, blocks[i], (heard + [b])[..i]) {
      assert FaithfulAt(data, blocks[i], heard[..i]);
      assert (heard + [b])[..i] == heard[..i];
    }
  }

  /** The payload cut out of the data and filled up is the next piece of the padded data. */
  lemma NextPayload(data: seq<byte>, k: nat)
    requires PAYLOAD * k < |data|
    ensures k < Blocks(|data|)
    ensures var z := if |data| - PAYLOAD * k < PAYLOAD then |data| - PAYLOAD * k else PAYLOAD;
      data[PAYLOAD * k..PAYLOAD * k + z] + Filler(PAYLOAD - z) == Padded(data)[PAYLOAD * k..PAYLOAD * (k + 1)]
  {
  }

  /** Cuts out a payload, fills it up and writes the block. */
  method SendBlock(line: Line, data: seq<byte>, done: nat, number: byte, ghost heard: seq<byte>)
      returns (ok: bool, ghost block: seq<byte>)
    requires line.Valid() && done == Acks(heard) && PAYLOAD * done < |data| && number == Low8(done + 1)
    modifies line
    ensures line.Valid() && line.read == old(line.read) && FaithfulAt(data, block, heard)
    ensures line.written == old(line.written) + 1
    ensures ok == line.writes(old(line.written)) && line.sent == if ok then old(line.sent) + [block] else old(line.sent)
  {
    hide Padded, Crc, FaithfulAt, Acks;
    NextPayload(data, done);
    var z := if |data| - PAYLOAD * done < PAYLOAD then |data| - PAYLOAD * done else PAYLOAD;
    var payload := data[PAYLOAD * done..PAYLOAD * done + z] + Filler(PAYLOAD - z);
    var crc := Crc16.Compute(payload);
    var chunk := [SOH, number, 255 - number] + payload + [Hi(crc), Lo(crc)];
    NextBlock(data, heard, chunk, payload);
    ok := line.Write(chunk);
    block := chunk;
  }

  /** Ends the transfer and waits for the acknowledgement. */
  method Finish(line: Line) returns (ok: bool)
    requires line.Valid()
    modifies line
    ensures line.Valid() && (line.sent == old(line.sent) || line.sent == old(line.sent) + [[EOT]])
    ensures ok ==> line.sent == old(line.sent) + [[EOT]]
    ensures ok == Succeeds(line.writes, old(line.written), 0, old(line.answers[line.read..]))
  {
    ghost var rest := line.answers[line.read..];
    ok := line.Write([EOT]);
    if !ok {
      return;
    }
    var answer;
    ok, answer := line.Read();
    assert ok ==> rest[0] == answer;
    ok := ok && answer == ACK;
  }

  /** Sends the data in blocks of 128 bytes. Each block is repeated until it is acknowledged, and the end of the
      transfer is acknowledged as well. On success the blocks acknowledged are numbered 1, 2, 3, ... and add up to the
      padded data. The outcome depends on the writes that go through and on the answers alone. */
  method WriteUartModem(line: Line, data: seq<byte>)
      returns (ok: bool, ghost blocks: seq<seq<byte>>, ghost heard: seq<byte>)
    requires line.Valid() && line.read == 0 && line.written == 0 && line.sent == []
    modifies line
    ensures line.Valid() && Faithful(data, blocks, heard) && (line.sent == blocks || line.sent == blocks + [[EOT]])
    ensures ok ==>
      && line.sent == blocks + [[EOT]] && |blocks| == |heard| && Acks(heard) == Blocks(|data|)
      && (forall i :: 0 <= i < |blocks| ==> |blocks[i]| == PAYLOAD + 5)
      && Delivered(blocks, heard) == Padded(data)
      && |Numbers(blocks, heard)| == Blocks(|data|) && forall i :: 0 <= i < Blocks(|data|) ==>
         Numbers(blocks, heard)[i] == Low8(i + 1)
    ensures ok <==>
      && AfterPing(line.answers).Some?
      && Succeeds(line.writes, 0, Blocks(|data|), AfterPing(line.answers).value)
  {
    hide Padded, Crc, Faithful, FaithfulAt, Delivered, Numbers, Acks, Succeeds, AfterPing;
    blocks, heard := [], [];
    NothingSent(data);
    ok := AwaitPing(line);
    if !ok {
      return;
    }
    ghost var after := AfterPing(line.answers).value;
    var number: byte, done := 1, 0;
    while PAYLOAD * done < |data|
      invariant line.Valid() && line.sent == blocks && |blocks| == |heard| && Faithful(data, blocks, heard)
      invariant done == Acks(heard) <= Blocks(|data|) && number == Low8(done + 1)
      invariant Succeeds(line.writes, 0, Blocks(|data|), after)
          == Succeeds(line.writes, line.written, Blocks(|data|) - done, line.answers[line.read..])
      decreases |line.answers| - line.read
    {
      ghost var rest := line.answers[line.read..];
      ghost var block;
      TakenAnswer(line.writes, line.written, Blocks(|data|) - done, rest);
      ok, block := SendBlock(line, data, done, number, heard);
      if !ok {
        return;
      }
      FaithfulMore(data, blocks, heard, block);
      blocks := blocks + [block];
      var answer;
      ok, answer := line.Read();
      if !ok {
        assert rest == [];
        return;
      }
      assert rest[0] == answer && rest[1..] == line.answers[line.read..];
      FaithfulHears(data, blocks, heard, answer);
      AcksAppend(heard, answer);
      heard := heard + [answer];
      if answer == ACK {
        number := Low8(number + 1);
        done := done + 1;
      } else if answer == CAN {
        return false, blocks, heard;
      }
    }
    ok := Finish(line);
    ReceivedInOrder(data, blocks, heard);
    assert Padded(data)[..PAYLOAD * Blocks(|data|)] == Padded(data);
  }

  lemma TakenAnswer(writes: nat -> bool, k: nat, left: nat, answers: seq<byte>)
    ensures !writes(k) || answers == [] ==> !Succeeds(writes, k, left, answers)
    ensures writes(k) && answers != [] && left > 0 ==>
      Succeeds(writes, k, left, answers) ==
        if answers[0] == ACK then Succeeds(writes, k + 1, left - 1, answers[1..])
        else answers[0] != CAN && Succeeds(writes, k + 1, left, answers[1..])
  {
  }

  lemma NothingSent(data: seq<byte>)
    ensures Faithful(data, [], []) && Acks([]) == 0
  {
  }

  lemma NextBlock(data: seq<byte>, heard: seq<byte>, block: seq<byte>, payload: seq<byte>)
    requires var k := Acks(heard); k < Blocks(|data|) && payload == Padded(data)[PAYLOAD * k..PAYLOAD * (k + 1)]
    requires block == [SOH, Low8(Acks(heard) + 1), 255 - Low8(Acks(heard) + 1)] + payload
      + [Hi(Crc(payload)), Lo(Crc(payload))]
    ensures FaithfulAt(data, block, heard)
  {
    hide Padded, Crc;
  }
}
