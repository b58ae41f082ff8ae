/** MoldUDP64 downstream framing: the Python sender's frame builder and the parsers behind it. */
module MoldUdp64 {
  import opened Basics

  /** "TESTSESS  " */
  const SESSION: Bytes := [0x54, 0x45, 0x53, 0x54, 0x53, 0x45, 0x53, 0x53, 0x20, 0x20]

  function Be16(n: U16): (b: Bytes)
    ensures |b| == 2
  {
    var high: Byte := n / 256;
    var low: Byte := n % 256;
    [high, low]
  }

  function Be32(n: U32): Bytes {
    Be16(n / 0x1_0000) + Be16(n % 0x1_0000)
  }

  function Be64(n: U64): (b: Bytes)
    ensures |b| == 8
  {
    Be32(n / 0x1_0000_0000) + Be32(n % 0x1_0000_0000)
  }

  function ReadBe16(data: Bytes, off: nat): U16
    requires off + 2 <= |data|
  {
    var high: int := data[off];
    high * 256 + data[off + 1]
  }

  function ReadBe32(data: Bytes, off: nat): U32
    requires off + 4 <= |data|
  {
    var high: int := ReadBe16(data, off);
    high * 0x1_0000 + ReadBe16(data, off + 2)
  }

  function ReadBe64(data: Bytes, off: nat): U64
    requires off + 8 <= |data|
  {
    var high: int := ReadBe32(data, off);
    high * 0x1_0000_0000 + ReadBe32(data, off + 4)
  }

  /** The number that bytes spell, the most significant first. */
  function BigEndian(s: Bytes): nat {
    if s == [] then 0 else BigEndian(s[..|s|-1]) * 0x100 + s[|s|-1]
  }

  lemma BigEndianOf2(s: Bytes)
    requires |s| == 2
    ensures var high: int := s[0]; BigEndian(s) == high * 0x100 + s[1]
  {
    var high: int := s[0];
    assert s[..1][..0] == [] && BigEndian(s[..1]) == high;
  }

  lemma {:induction false} BigEndianConcat(a: Bytes, b: Bytes)
    requires |b| == 2
    ensures BigEndian(a + b) == BigEndian(a) * 0x1_0000 + BigEndian(b)
  {
    BigEndianOf2(b);
    assert (a + b)[..|a| + 1] == a + [b[0]] && (a + [b[0]])[..|a|] == a;
  }

  /** The writing and the reading of a number are both in network byte order. */
  lemma NetworkOrder16(n: U16, data: Bytes, off: nat)
    requires off + 2 <= |data|
    ensures BigEndian(Be16(n)) == n && ReadBe16(data, off) == BigEndian(data[off..off + 2])
  {
    BigEndianOf2(Be16(n));
    BigEndianOf2(data[off..off + 2]);
  }

  lemma NetworkOrder32(n: U32, data: Bytes, off: nat)
    requires off + 4 <= |data|
    ensures BigEndian(Be32(n)) == n && ReadBe32(data, off) == BigEndian(data[off..off + 4])
  {
    var high: U16, low: U16 := n / 0x1_0000, n % 0x1_0000;
    NetworkOrder16(high, data, off);
    NetworkOrder16(low, data, off + 2);
    hide BigEndian, Be16, ReadBe16;
    BigEndianConcat(Be16(high), Be16(low));
    assert data[off..off + 4] == data[off..off + 2] + data[off + 2..off + 4];
    BigEndianConcat(data[off..off + 2], data[off + 2..off + 4]);
  }

  lemma NetworkOrder64(n: U64, data: Bytes, off: nat)
    requires off + 8 <= |data|
    ensures BigEndian(Be64(n)) == n && ReadBe64(data, off) == BigEndian(data[off..off + 8])
  {
    var high: U32, low: U32 := n / 0x1_0000_0000, n % 0x1_0000_0000;
    NetworkOrder32(high, data, off);
    NetworkOrder32(low, data, off + 4);
    hide BigEndian, Be32, ReadBe32;
    BigEndianJoin(Be32(high), Be32(low));
    assert data[off..off + 8] == data[off..off + 4] + data[off + 4..off + 8];
    BigEndianJoin(data[off..off + 4], data[off + 4..off + 8]);
  }

  lemma BigEndianJoin(a: Bytes, b: Bytes)
    requires |b| == 4
    ensures BigEndian(a + b) == BigEndian(a) * 0x1_0000_0000 + BigEndian(b)
  {
    hide BigEndian;
    assert a + b == a + b[..2] + b[2..] && b == b[..2] + b[2..];
    BigEndianConcat(a + b[..2], b[2..]);
    BigEndianConcat(a, b[..2]);
    BigEndianConcat(b[..2], b[2..]);
  }

  // ---------- building

  /** A length-prefixed message block for each message. */
  function Blocks(messages: seq<Bytes>): Bytes
    requires Packable(messages)
  {
    if messages == [] then [] else Be16(|messages[0]|) + messages[0] + Blocks(messages[1..])
  }

  /** `struct.pack('>H', len(m))` accepts each message. */
  predicate Packable(messages: seq<Bytes>) {
    forall m :: m in messages ==> |m| < 0x1_0000
  }

  /** One frame for a list of messages; none where packing a field raises an error. */
  function BuildFrame(seqNo: int, messages: seq<Bytes>): Option<Bytes> {
    if 0 <= seqNo < TWO_64 && |messages| < 0x1_0000 && Packable(messages) then
      Some(SESSION + Be64(seqNo) + Be16(|messages|) + Blocks(messages))
    else None
  }

  /** The header of a frame reads back as the session, the sequence number and the message count; a
      frame is built exactly when each of its numbers fits its field. */
  lemma FrameHeader(seqNo: int, messages: seq<Bytes>)
    ensures BuildFrame(seqNo, messages).Some?
       <==> 0 <= seqNo < TWO_64 && |messages| < 0x1_0000 && forall m :: m in messages ==> |m| < 0x1_0000
    ensures BuildFrame(seqNo, messages).Some? ==>
              var f := BuildFrame(seqNo, messages).value;
              && |f| >= 20 && ReadBe64(f, 10) == seqNo && ReadBe16(f, 18) == |messages|
              && forall i :: 0 <= i < 10 ==> f[i] == "TESTSESS  "[i] as int
  {
    if BuildFrame(seqNo, messages).Some? {
      var f := BuildFrame(seqNo, messages).value;
      var count := Be16(|messages|);
      assert f[10..18] == Be64(seqNo) && f[18..20] == count;
      Be64Read(f, 10, seqNo);
      assert f[18] == f[18..20][0] && f[19] == f[18..20][1];
    }
  }

  lemma Be64Read(data: Bytes, off: nat, n: U64)
    requires off + 8 <= |data| && data[off..off + 8] == Be64(n)
    ensures ReadBe64(data, off) == n
  {
    var s := data[off..off + 8];
    var high: U32, low: U32 := n / 0x1_0000_0000, n % 0x1_0000_0000;
    assert s[..4] == Be32(high) && s[4..] == Be32(low);
    assert data[off..off + 4] == s[..4] && data[off + 4..off + 8] == s[4..];
    Be32Read(data, off, high);
    Be32Read(data, off + 4, low);
  }

  lemma Be32Read(data: Bytes, off: nat, n: U32)
    requires off + 4 <= |data| && data[off..off + 4] == Be32(n)
    ensures ReadBe32(data, off) == n
  {
    var s := data[off..off + 4];
    assert s[0] == data[off] && s[1] == data[off + 1] && s[2] == data[off + 2] && s[3] == data[off + 3];
  }

  // ---------- parsing

  /** The messages of at most n blocks from an offset, up to the first empty or incomplete block. */
  function ParseBlocks(payload: Bytes, off: nat, n: nat): seq<Bytes>
    decreases n
  {
    if n == 0 || off + 2 > |payload| then []
    else
      var len := ReadBe16(payload, off);
      if len == 0 || off + 2 + len > |payload| then []
      else [payload[off + 2..off + 2 + len]] + ParseBlocks(payload, off + 2 + len, n - 1)
  }

  /** A complete, non-empty block starts here. */
  predicate BlockAt(payload: Bytes, off: nat) {
    off + 2 <= |payload| && 0 < ReadBe16(payload, off) <= |payload| - off - 2
  }

  /** One round of a parser: either a block is taken, or nothing more is. */
  lemma ParseStep(payload: Bytes, off: nat, n: nat)
    requires n > 0
    ensures if BlockAt(payload, off) then
              var next := off + 2 + ReadBe16(payload, off);
              ParseBlocks(payload, off, n) == [payload[off + 2..next]] + ParseBlocks(payload, next, n - 1)
            else ParseBlocks(payload, off, n) == []
  {
  }

  function Parse(payload: Bytes): seq<Bytes> {
    if |payload| < 20 then [] else ParseBlocks(payload, 20, ReadBe16(payload, 18))
  }

  /** These messages and the blocks from this offset on, at most n, are those of the payload. */
  predicate Parsing(payload: Bytes, off: nat, n: int, done: seq<Bytes>) {
    off >= 20 && n >= 0 && done + ParseBlocks(payload, off, n) == Parse(payload)
  }

  lemma ParsingStarts(payload: Bytes)
    requires |payload| >= 20
    ensures Parsing(payload, 20, ReadBe16(payload, 18), [])
  {
  }

  lemma ParsingEnds(payload: Bytes, off: nat, done: seq<Bytes>)
    requires Parsing(payload, off, 0, done)
    ensures done == Parse(payload)
  {
  }

  lemma ParsingGoesOn(payload: Bytes, off: nat, n: nat, done: seq<Bytes>)
    requires n > 0 && Parsing(payload, off, n, done)
    ensures if off + 2 <= |payload| && 0 < ReadBe16(payload, off) <= |payload| - off - 2 then
              var next := off + 2 + ReadBe16(payload, off);
              && Parsing(payload, next, n - 1, done + [payload[off + 2..next]])
              && |done| < |Parse(payload)|
            else done == Parse(payload)
  {
    ParseStep(payload, off, n);
  }

  /** The Python parser. */
  method ParseMoldUdp64(payload: Bytes) returns (messages: seq<Bytes>)
    ensures messages == Parse(payload)
  {
    if |payload| < 20 {
      return [];
    }
    hide *;
    ParsingStarts(payload);
    var msgCount := ReadBe16(payload, 18);
    messages := [];
    var off: nat := 20;
    for i := 0 to msgCount
      invariant Parsing(payload, off, msgCount - i, messages)
    {
      ParsingGoesOn(payload, off, msgCount - i, messages);
      if off + 2 > |payload| {
        return;
      }
      var msgLen := ReadBe16(payload, off);
      off := off + 2;
      if msgLen == 0 || off + msgLen > |payload| {
        return;
      }
      messages := messages + [payload[off..off + msgLen]];
      off := off + msgLen;
    }
    ParsingEnds(payload, off, messages);
  }

  // ---------- what the parser returns

  predicate AllNonEmpty(messages: seq<Bytes>) {
    forall m :: m in messages ==> m != []
  }

  /** The payload continues with this data at this offset. */
  predicate StartsAt(payload: Bytes, off: nat, data: Bytes) {
    off + |data| <= |payload| && payload[off..off + |data|] == data
  }

  /** The payload from `off` spells out the blocks of these non-empty messages, at most n of them,
      and they stop short of n only where no complete non-empty block follows. */
  ghost predicate SpellsOut(payload: Bytes, off: nat, n: nat, messages: seq<Bytes>) {
    && Packable(messages) && AllNonEmpty(messages) && |messages| <= n
    && StartsAt(payload, off, Blocks(messages))
    && (|messages| == n || !BlockAt(payload, off + |Blocks(messages)|))
  }

  lemma StartsConcat(payload: Bytes, off: nat, a: Bytes, b: Bytes)
    ensures StartsAt(payload, off, a + b) == (StartsAt(payload, off, a) && StartsAt(payload, off + |a|, b))
  {
    if off + |a + b| <= |payload| {
      var s := payload[off..off + |a + b|];
      assert s[..|a|] == payload[off..off + |a|] && s[|a|..] == payload[off + |a|..off + |a| + |b|];
      assert s == s[..|a|] + s[|a|..];
      assert (a + b)[..|a|] == a && (a + b)[|a|..] == b;
    }
  }

  lemma StartsBe16(payload: Bytes, off: nat, n: U16)
    ensures StartsAt(payload, off, Be16(n)) == (off + 2 <= |payload| && ReadBe16(payload, off) == n)
  {
    if off + 2 <= |payload| {
      assert payload[off..off + 2] == [payload[off], payload[off + 1]];
    }
  }

  lemma FirstBlock(messages: seq<Bytes>)
    requires Packable(messages) && messages != [] && |messages[0]| < 0x1_0000 && Packable(messages[1..])
    ensures Blocks(messages) == Be16(|messages[0]|) + messages[0] + Blocks(messages[1..])
    ensures |Blocks(messages)| == 2 + |messages[0]| + |Blocks(messages[1..])|
  {
  }

  lemma StartsBlocks(payload: Bytes, off: nat, messages: seq<Bytes>)
    requires Packable(messages) && messages != []
    ensures StartsAt(payload, off, Blocks(messages))
         == (off + 2 <= |payload| && ReadBe16(payload, off) == |messages[0]|
             && StartsAt(payload, off + 2, messages[0])
             && StartsAt(payload, off + 2 + |messages[0]|, Blocks(messages[1..])))
    ensures |Blocks(messages)| == 2 + |messages[0]| + |Blocks(messages[1..])|
  {
    hide *;
    FirstAndRest(messages);
    FirstBlock(messages);
    StartsBlock(payload, off, messages[0], Blocks(messages[1..]));
  }

  lemma StartsBlock(payload: Bytes, off: nat, m: Bytes, rest: Bytes)
    requires |m| < 0x1_0000
    ensures StartsAt(payload, off, Be16(|m|) + m + rest)
         == (off + 2 <= |payload| && ReadBe16(payload, off) == |m|
             && StartsAt(payload, off + 2, m) && StartsAt(payload, off + 2 + |m|, rest))
  {
    hide *;
    StartsTriple(payload, off, Be16(|m|), m, rest);
    StartsBe16(payload, off, |m|);
  }

  lemma StartsTriple(payload: Bytes, off: nat, a: Bytes, b: Bytes, c: Bytes)
    ensures StartsAt(payload, off, a + b + c)
         == (StartsAt(payload, off, a) && StartsAt(payload, off + |a|, b) && StartsAt(payload, off + |a| + |b|, c))
  {
    StartsConcat(payload, off, a + b, c);
    StartsConcat(payload, off, a, b);
  }

  /** Where a block starts, spelling out begins with its message. */
  lemma BlockFirst(payload: Bytes, off: nat, n: nat, messages: seq<Bytes>)
    requires n > 0 && BlockAt(payload, off)
    ensures SpellsOut(payload, off, n, messages)
       <==> messages != [] && messages[0] == payload[off + 2..off + 2 + ReadBe16(payload, off)]
            && SpellsOut(payload, off + 2 + ReadBe16(payload, off), n - 1, messages[1..])
  {
    if messages != [] {
      FirstAndRest(messages);
      if Packable(messages) {
        StartsBlocks(payload, off, messages);
      }
    }
  }

  lemma FirstAndRest(messages: seq<Bytes>)
    requires messages != []
    ensures Packable(messages) <==> |messages[0]| < 0x1_0000 && Packable(messages[1..])
    ensures AllNonEmpty(messages) <==> messages[0] != [] && AllNonEmpty(messages[1..])
  {
    assert messages[0] in messages;
    assert forall m :: m in messages <==> m == messages[0] || m in messages[1..];
  }

  /** The parse of a payload is the one list of messages it spells out. */
  lemma {:induction false} ParseIsTheOnlyReading(payload: Bytes, off: nat, n: nat, messages: seq<Bytes>)
    requires off <= |payload|
    ensures SpellsOut(payload, off, n, messages) <==> messages == ParseBlocks(payload, off, n)
    decreases n
  {
    if n > 0 && BlockAt(payload, off) {
      var next := off + 2 + ReadBe16(payload, off);
      BlockFirst(payload, off, n, messages);
      assert ParseBlocks(payload, off, n) == [payload[off + 2..next]] + ParseBlocks(payload, next, n - 1);
      if messages == [] {
        assert !SpellsOut(payload, off, n, messages);
      } else {
        ParseIsTheOnlyReading(payload, next, n - 1, messages[1..]);
        ConsIs(payload[off + 2..next], ParseBlocks(payload, next, n - 1), messages);
      }
    } else {
      assert ParseBlocks(payload, off, n) == [];
      NoBlockFirst(payload, off, n, messages);
    }
  }

  lemma ConsIs<T>(x: T, rest: seq<T>, s: seq<T>)
    requires s != []
    ensures s == [x] + rest <==> s[0] == x && s[1..] == rest
  {
    assert s == [s[0]] + s[1..];
    assert ([x] + rest)[1..] == rest;
  }

  lemma NoBlockFirst(payload: Bytes, off: nat, n: nat, messages: seq<Bytes>)
    requires off <= |payload| && (n == 0 || !BlockAt(payload, off))
    ensures SpellsOut(payload, off, n, messages) <==> messages == []
  {
    if messages != [] && SpellsOut(payload, off, n, messages) {
      StartsBlocks(payload, off, messages);
      FirstAndRest(messages);
    }
  }

  // ---------- round trip

  /** The messages before the first empty one. */
  function UpToEmpty(messages: seq<Bytes>): seq<Bytes> {
    if messages == [] || messages[0] == [] then [] else [messages[0]] + UpToEmpty(messages[1..])
  }

  /** The sender's blocks, at the end of any payload, are read back up to the first empty message. */
  lemma {:induction false} ParseBuiltBlocks(payload: Bytes, off: nat, messages: seq<Bytes>)
    requires Packable(messages) && off + |Blocks(messages)| == |payload| && StartsAt(payload, off, Blocks(messages))
    ensures ParseBlocks(payload, off, |messages|) == UpToEmpty(messages)
    decreases |messages|
  {
    if messages != [] {
      var m := messages[0];
      StartsBlocks(payload, off, messages);
      assert payload[off + 2..off + 2 + |m|] == m;
      ParseStep(payload, off, |messages|);
      hide Blocks, ReadBe16, StartsAt, ParseBlocks;
      if m != [] {
        ParseBuiltBlocks(payload, off + 2 + |m|, messages[1..]);
      }
    }
  }

  /** Parsing a frame gives back its messages up to the first empty one. */
  lemma ParseBuilt(seqNo: int, messages: seq<Bytes>)
    requires BuildFrame(seqNo, messages).Some?
    ensures Parse(BuildFrame(seqNo, messages).value) == UpToEmpty(messages)
  {
    var frame := BuildFrame(seqNo, messages).value;
    var header := SESSION + Be64(seqNo);
    var front := header + Be16(|messages|);
    assert frame == front + Blocks(messages) && |header| == 18 && |front| == 20;
    assert StartsAt(frame, 0, frame);
    StartsConcat(frame, 0, front, Blocks(messages));
    StartsConcat(frame, 0, header, Be16(|messages|));
    StartsBe16(frame, 18, |messages|);
    ParseBuiltBlocks(frame, 20, messages);
  }

  lemma {:induction false} UpToEmptyIsAll(messages: seq<Bytes>)
    ensures UpToEmpty(messages) == messages <==> AllNonEmpty(messages)
  {
    if messages != [] {
      UpToEmptyIsAll(messages[1..]);
      FirstAndRest(messages);
      assert messages == [messages[0]] + messages[1..];
    }
  }

  /** The round trip: whatever the sender can build is parsed back exactly, if and only if none of
      its messages is empty. */
  lemma RoundTripIff(seqNo: int, messages: seq<Bytes>)
    requires BuildFrame(seqNo, messages).Some?
    ensures Parse(BuildFrame(seqNo, messages).value) == messages <==> AllNonEmpty(messages)
  {
    ParseBuilt(seqNo, messages);
    UpToEmptyIsAll(messages);
  }

  /** The smallest frame that does not survive: one empty message. */
  lemma EmptyMessageIsLost()
    ensures BuildFrame(0, [[]]).Some? && Parse(BuildFrame(0, [[]]).value) == []
  {
    ParseBuilt(0, [[]]);
  }
}
