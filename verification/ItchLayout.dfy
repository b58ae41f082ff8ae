/** The packed ITCH structures, field after field, as an independent reference for the decoding. */
module ItchLayout {
  import opened Basics
  import opened Orders
  import opened HandlerModel

  function Le32(n: U32): (b: Bytes)
    ensures |b| == 4
  {
    var n1 := n / 0x100;
    var n2 := n1 / 0x100;
    var b0: Byte, b1: Byte, b2: Byte, b3: Byte := n % 0x100, n1 % 0x100, n2 % 0x100, n2 / 0x100;
    [b0, b1, b2, b3]
  }

  function Le64(n: U64): (b: Bytes)
    ensures |b| == 8
  {
    Le32(n % TWO_32) + Le32(n / TWO_32)
  }

  type Bytes2 = b: Bytes | |b| == 2 witness [0, 0]
  type Bytes8 = b: Bytes | |b| == 8 witness [0, 0, 0, 0, 0, 0, 0, 0]

  /** The fields every message starts with. */
  datatype Header = Header(length: Bytes2, kind: Byte, reserved: Byte, timestamp: U32)

  datatype Body =
    | AddBody(ref: U64, side: Byte, shares: U32, stock: Bytes8, price: U64, mpid: U32)
    | ExecuteBody(ref: U64, shares: U32, price: U64, execution: U32, cross: U32)
    | CancelBody(ref: U64, shares: U32)
    | DeleteBody(ref: U64)
    | ReplaceBody(ref: U64, newRef: U64, newShares: U32, newPrice: U64)
    | TradeBody(ref: U64, side: Byte, shares: U32, stock: Bytes8, price: U64, trade: U32, crossType: Byte)

  function PackHeader(h: Header): (b: Bytes)
    ensures |b| == 8
  {
    h.length + [h.kind, h.reserved] + Le32(h.timestamp)
  }

  function PackBody(body: Body): Bytes {
    match body
    case AddBody(ref, side, shares, stock, price, mpid) =>
      Le64(ref) + ([side] + (Le32(shares) + (stock + (Le64(price) + Le32(mpid)))))
    case ExecuteBody(ref, shares, price, execution, cross) =>
      Le64(ref) + (Le32(shares) + (Le64(price) + (Le32(execution) + Le32(cross))))
    case CancelBody(ref, shares) => Le64(ref) + Le32(shares)
    case DeleteBody(ref) => Le64(ref)
    case ReplaceBody(ref, newRef, newShares, newPrice) =>
      Le64(ref) + (Le64(newRef) + (Le32(newShares) + Le64(newPrice)))
    case TradeBody(ref, side, shares, stock, price, trade, crossType) =>
      Le64(ref) + ([side] + (Le32(shares) + (stock + (Le64(price) + (Le32(trade) + [crossType])))))
  }

  /** The type letters under which a body is sent. */
  predicate IsKindOf(kind: Byte, body: Body) {
    match body
    case AddBody(_, _, _, _, _, _) => kind == 'A' as int || kind == 'F' as int
    case ExecuteBody(_, _, _, _, _) => kind == 'E' as int || kind == 'C' as int
    case CancelBody(_, _) => kind == 'X' as int
    case DeleteBody(_) => kind == 'D' as int
    case ReplaceBody(_, _, _, _) => kind == 'U' as int
    case TradeBody(_, _, _, _, _, _, _) => kind == 'P' as int
  }

  /** What the handler keeps of a body. */
  function Meaning(body: Body): Message {
    match body
    case AddBody(ref, side, shares, _, price, _) => AddOrder(ref, if side == 'B' as int then Buy else Sell, shares, price)
    case ExecuteBody(ref, shares, _, _, _) => ExecuteOrder(ref, shares)
    case CancelBody(ref, _) => CancelOrder(ref)
    case DeleteBody(ref) => DeleteOrder(ref)
    case ReplaceBody(ref, _, _, _) => ReplaceOrder(ref)
    case TradeBody(_, _, _, _, _, _, _) => Trade
  }

  /** The data at this offset. */
  ghost predicate HasAt(q: Bytes, off: nat, data: Bytes) {
    off + |data| <= |q| && q[off..off + |data|] == data
  }

  lemma SplitAt(q: Bytes, off: nat, a: Bytes, b: Bytes)
    requires HasAt(q, off, a + b)
    ensures HasAt(q, off, a) && HasAt(q, off + |a|, b)
  {
    var s := q[off..off + |a + b|];
    assert s == a + b;
    assert q[off..off + |a|] == s[..|a|] == a;
    assert q[off + |a|..off + |a| + |b|] == s[|a|..] == b;
  }

  lemma U32Read(q: Bytes, off: nat, n: U32)
    requires HasAt(q, off, Le32(n))
    ensures U32At(q, off) == n
  {
    var s := q[off..off + 4];
    assert s[0] == q[off] && s[1] == q[off + 1] && s[2] == q[off + 2] && s[3] == q[off + 3];
  }

  lemma U64Read(q: Bytes, off: nat, n: U64)
    requires HasAt(q, off, Le64(n))
    ensures U64At(q, off) == n
  {
    SplitAt(q, off, Le32(n % TWO_32), Le32(n / TWO_32));
    U32Read(q, off, n % TWO_32);
    U32Read(q, off + 4, n / TWO_32);
  }

  lemma ByteRead(q: Bytes, off: nat, b: Byte)
    requires HasAt(q, off, [b])
    ensures q[off] == b
  {
    assert q[off..off + 1][0] == b;
  }

  lemma HeaderRead(q: Bytes, h: Header)
    requires HasAt(q, 0, PackHeader(h))
    ensures q[2] == h.kind && U32At(q, 4) == h.timestamp
  {
    SplitAt(q, 0, h.length + [h.kind, h.reserved], Le32(h.timestamp));
    SplitAt(q, 0, h.length, [h.kind, h.reserved]);
    assert q[2..4][0] == h.kind;
    U32Read(q, 4, h.timestamp);
  }

  /** The fields the decoding reads, found by walking the structure field by field. */
  lemma BodyRead(q: Bytes, body: Body)
    requires HasAt(q, 8, PackBody(body))
    ensures U64At(q, 8) == body.ref
    ensures body.AddBody? ==> q[16] == body.side && U32At(q, 17) == body.shares && U64At(q, 29) == body.price
    ensures body.ExecuteBody? ==> U32At(q, 16) == body.shares
  {
    hide HasAt, Le32, Le64, U32At, U64At;
    match body
    case AddBody(ref, side, shares, stock, price, mpid) =>
      SplitAt(q, 8, Le64(ref), [side] + (Le32(shares) + (stock + (Le64(price) + Le32(mpid)))));
      SplitAt(q, 16, [side], Le32(shares) + (stock + (Le64(price) + Le32(mpid))));
      SplitAt(q, 17, Le32(shares), stock + (Le64(price) + Le32(mpid)));
      SplitAt(q, 21, stock, Le64(price) + Le32(mpid));
      SplitAt(q, 29, Le64(price), Le32(mpid));
      U64Read(q, 8, ref);
      ByteRead(q, 16, side);
      U32Read(q, 17, shares);
      U64Read(q, 29, price);
    case ExecuteBody(ref, shares, price, execution, cross) =>
      SplitAt(q, 8, Le64(ref), Le32(shares) + (Le64(price) + (Le32(execution) + Le32(cross))));
      SplitAt(q, 16, Le32(shares), Le64(price) + (Le32(execution) + Le32(cross)));
      U64Read(q, 8, ref);
      U32Read(q, 16, shares);
    case CancelBody(ref, shares) =>
      SplitAt(q, 8, Le64(ref), Le32(shares));
      U64Read(q, 8, ref);
    case DeleteBody(ref) =>
      U64Read(q, 8, ref);
    case ReplaceBody(ref, newRef, newShares, newPrice) =>
      SplitAt(q, 8, Le64(ref), Le64(newRef) + (Le32(newShares) + Le64(newPrice)));
      U64Read(q, 8, ref);
    case TradeBody(ref, side, shares, stock, price, trade, crossType) =>
      SplitAt(q, 8, Le64(ref), [side] + (Le32(shares) + (stock + (Le64(price) + (Le32(trade) + [crossType])))));
      U64Read(q, 8, ref);
  }

  lemma PackedAt(h: Header, body: Body, rest: Bytes)
    ensures var q := PackHeader(h) + PackBody(body) + rest;
            HasAt(q, 0, PackHeader(h)) && HasAt(q, 8, PackBody(body)) && |q| == 8 + |PackBody(body)| + |rest|
  {
    hide PackBody;
  }

  lemma BodySize(body: Body)
    ensures |PackBody(body)| == match body
            case AddBody(_, _, _, _, _, _) => 33
            case ExecuteBody(_, _, _, _, _) => 28
            case CancelBody(_, _) => 12
            case DeleteBody(_) => 8
            case ReplaceBody(_, _, _, _) => 28
            case TradeBody(_, _, _, _, _, _, _) => 34
  {
  }

  lemma DecodedFields(q: Bytes, h: Header, body: Body, instrument: U32)
    requires IsKindOf(h.kind, body) && |q| >= 8 + |PackBody(body)| >= 16
    requires q[2] == h.kind && U32At(q, 4) == h.timestamp && U64At(q, 8) == body.ref
    requires body.AddBody? ==> |q| >= 37 && q[16] == body.side && U32At(q, 17) == body.shares && U64At(q, 29) == body.price
    requires body.ExecuteBody? ==> |q| >= 20 && U32At(q, 16) == body.shares
    ensures Decode(q) == Some(Meaning(body)) && EventOf(instrument, Meaning(body), q).timestamp == h.timestamp
  {
    BodySize(body);
    hide PackBody, U32At, U64At;
  }

  /** A packed structure, with whatever follows it, decodes to what it means, and its event carries
      its timestamp. */
  lemma PackedDecodes(h: Header, body: Body, rest: Bytes, instrument: U32)
    requires IsKindOf(h.kind, body)
    ensures var q := PackHeader(h) + PackBody(body) + rest;
            && Decode(q) == Some(Meaning(body))
            && EventOf(instrument, Meaning(body), q).timestamp == h.timestamp
  {
    var q := PackHeader(h) + PackBody(body) + rest;
    PackedAt(h, body, rest);
    BodySize(body);
    HeaderRead(q, h);
    BodyRead(q, body);
    hide *;
    DecodedFields(q, h, body, instrument);
  }

  /** Cut short anywhere, it decodes to nothing. */
  lemma TruncatedFails(h: Header, body: Body, n: nat)
    requires IsKindOf(h.kind, body) && n < |PackHeader(h) + PackBody(body)|
    ensures Decode((PackHeader(h) + PackBody(body))[..n]) == None
  {
    var q := PackHeader(h) + PackBody(body);
    assert q + [] == q;
    PackedAt(h, body, []);
    BodySize(body);
    HeaderRead(q, h);
    hide PackHeader, PackBody, HasAt, Le32, Le64, U32At, U64At;
  }

  // ---------- and nothing else decodes

  lemma JoinAt(q: Bytes, off: nat, a: Bytes, b: Bytes)
    requires HasAt(q, off, a) && HasAt(q, off + |a|, b)
    ensures HasAt(q, off, a + b)
  {
    assert q[off..off + |a + b|] == q[off..off + |a|] + q[off + |a|..off + |a| + |b|];
  }

  lemma U32Written(q: Bytes, off: nat)
    requires off + 4 <= |q|
    ensures HasAt(q, off, Le32(U32At(q, off)))
  {
    Digits(q[off], q[off + 1], q[off + 2], q[off + 3]);
    assert q[off..off + 4] == [q[off], q[off + 1], q[off + 2], q[off + 3]];
  }

  lemma Digits(b0: Byte, b1: Byte, b2: Byte, b3: Byte)
    ensures Le32(b0 + 0x100 * b1 + 0x1_0000 * b2 + 0x100_0000 * b3) == [b0, b1, b2, b3]
  {
    var n := b0 + 0x100 * b1 + 0x1_0000 * b2 + 0x100_0000 * b3;
    assert n / 0x100 == b1 + 0x100 * b2 + 0x1_0000 * b3 && n % 0x100 == b0;
    assert n / 0x100 / 0x100 == b2 + 0x100 * b3 && n / 0x100 % 0x100 == b1;
  }

  lemma U64Written(q: Bytes, off: nat)
    requires off + 8 <= |q|
    ensures HasAt(q, off, Le64(U64At(q, off)))
  {
    hide HasAt, Le32, U32At;
    var low, high := U32At(q, off), U32At(q, off + 4);
    assert U64At(q, off) % TWO_32 == low && U64At(q, off) / TWO_32 == high;
    hide U64At;
    U32Written(q, off);
    U32Written(q, off + 4);
    JoinAt(q, off, Le32(low), Le32(high));
  }

  lemma SliceAt(q: Bytes, off: nat, n: nat)
    requires off + n <= |q|
    ensures HasAt(q, off, q[off..off + n]) && (n == 1 ==> q[off..off + n] == [q[off]])
  {
  }

  function HeaderOf(q: Bytes): Header
    requires |q| >= 8
  {
    Header(q[..2], q[2], q[3], U32At(q, 4))
  }

  /** The whole structure that a message of a known type and sufficient size holds. */
  function BodyOf(q: Bytes): Body
    requires Decode(q).Some?
  {
    match Decode(q).value
    case AddOrder(_, _, _, _) => AddBody(U64At(q, 8), q[16], U32At(q, 17), q[21..29], U64At(q, 29), U32At(q, 37))
    case ExecuteOrder(_, _) => ExecuteBody(U64At(q, 8), U32At(q, 16), U64At(q, 20), U32At(q, 28), U32At(q, 32))
    case CancelOrder(_) => CancelBody(U64At(q, 8), U32At(q, 16))
    case DeleteOrder(_) => DeleteBody(U64At(q, 8))
    case ReplaceOrder(_) => ReplaceBody(U64At(q, 8), U64At(q, 16), U32At(q, 24), U64At(q, 28))
    case Trade => TradeBody(U64At(q, 8), q[16], U32At(q, 17), q[21..29], U64At(q, 29), U32At(q, 37), q[41])
  }

  lemma HeaderThere(q: Bytes)
    requires |q| >= 8
    ensures HasAt(q, 0, PackHeader(HeaderOf(q)))
  {
    U32Written(q, 4);
    assert q[0..4] == q[..2] + [q[2], q[3]];
    JoinAt(q, 0, q[..2] + [q[2], q[3]], Le32(U32At(q, 4)));
  }

  lemma BodyThere(q: Bytes)
    requires Decode(q).Some?
    ensures HasAt(q, 8, PackBody(BodyOf(q)))
  {
    hide HasAt, Le32, Le64, U32At, U64At;
    U64Written(q, 8);
    match Decode(q).value
    case AddOrder(_, _, _, _) =>
      U64Written(q, 29);
      U32Written(q, 37);
      JoinAt(q, 29, Le64(U64At(q, 29)), Le32(U32At(q, 37)));
      PricedThere(q, Le64(U64At(q, 29)) + Le32(U32At(q, 37)));
    case ExecuteOrder(_, _) =>
      U32Written(q, 16);
      U64Written(q, 20);
      U32Written(q, 28);
      U32Written(q, 32);
      JoinAt(q, 28, Le32(U32At(q, 28)), Le32(U32At(q, 32)));
      JoinAt(q, 20, Le64(U64At(q, 20)), Le32(U32At(q, 28)) + Le32(U32At(q, 32)));
      JoinAt(q, 16, Le32(U32At(q, 16)), Le64(U64At(q, 20)) + (Le32(U32At(q, 28)) + Le32(U32At(q, 32))));
      JoinAt(q, 8, Le64(U64At(q, 8)),
             Le32(U32At(q, 16)) + (Le64(U64At(q, 20)) + (Le32(U32At(q, 28)) + Le32(U32At(q, 32)))));
    case CancelOrder(_) =>
      U32Written(q, 16);
      JoinAt(q, 8, Le64(U64At(q, 8)), Le32(U32At(q, 16)));
    case DeleteOrder(_) =>
    case ReplaceOrder(_) =>
      U64Written(q, 16);
      U32Written(q, 24);
      U64Written(q, 28);
      JoinAt(q, 24, Le32(U32At(q, 24)), Le64(U64At(q, 28)));
      JoinAt(q, 16, Le64(U64At(q, 16)), Le32(U32At(q, 24)) + Le64(U64At(q, 28)));
      JoinAt(q, 8, Le64(U64At(q, 8)), Le64(U64At(q, 16)) + (Le32(U32At(q, 24)) + Le64(U64At(q, 28))));
    case Trade =>
      U64Written(q, 29);
      U32Written(q, 37);
      SliceAt(q, 41, 1);
      JoinAt(q, 37, Le32(U32At(q, 37)), [q[41]]);
      JoinAt(q, 29, Le64(U64At(q, 29)), Le32(U32At(q, 37)) + [q[41]]);
      PricedThere(q, Le64(U64At(q, 29)) + (Le32(U32At(q, 37)) + [q[41]]));
  }

  /** The fields that an add and a trade have in common, in front of the rest. */
  lemma PricedThere(q: Bytes, rest: Bytes)
    requires |q| >= 29 && HasAt(q, 29, rest)
    ensures HasAt(q, 8, Le64(U64At(q, 8)) + ([q[16]] + (Le32(U32At(q, 17)) + (q[21..29] + rest))))
  {
    hide HasAt, Le32, Le64, U32At, U64At;
    U64Written(q, 8);
    SliceAt(q, 16, 1);
    U32Written(q, 17);
    SliceAt(q, 21, 8);
    JoinAt(q, 21, q[21..29], rest);
    JoinAt(q, 17, Le32(U32At(q, 17)), q[21..29] + rest);
    JoinAt(q, 16, [q[16]], Le32(U32At(q, 17)) + (q[21..29] + rest));
    JoinAt(q, 8, Le64(U64At(q, 8)), [q[16]] + (Le32(U32At(q, 17)) + (q[21..29] + rest)));
  }

  lemma KindThere(q: Bytes)
    requires Decode(q).Some?
    ensures |q| >= 8 && IsKindOf(HeaderOf(q).kind, BodyOf(q)) && Meaning(BodyOf(q)) == Decode(q).value
  {
    hide U32At, U64At;
  }

  /** Every message is its structure, and whatever follows. */
  lemma Unpacked(q: Bytes) returns (rest: Bytes)
    requires Decode(q).Some? && |q| >= 8
    ensures q == PackHeader(HeaderOf(q)) + PackBody(BodyOf(q)) + rest
  {
    HeaderThere(q);
    BodyThere(q);
    hide *;
    rest := FrontOf(q, PackHeader(HeaderOf(q)), PackBody(BodyOf(q)));
  }

  lemma FrontOf(q: Bytes, a: Bytes, b: Bytes) returns (rest: Bytes)
    requires HasAt(q, 0, a) && HasAt(q, |a|, b)
    ensures q == a + b + rest
  {
    JoinAt(q, 0, a, b);
    rest := q[|a + b|..];
    assert q == q[0..|a + b|] + rest;
  }

  /** A byte string is a message exactly when it begins with one of the packed structures, and then it
      means what that structure means. */
  lemma DecodesExactly(q: Bytes, m: Message)
    ensures Decode(q) == Some(m)
       <==> exists h: Header, body, rest :: IsKindOf(h.kind, body) && q == PackHeader(h) + PackBody(body) + rest && Meaning(body) == m
  {
    hide PackHeader, PackBody, HeaderOf, BodyOf, Decode, IsKindOf, Meaning;
    if Decode(q) == Some(m) {
      KindThere(q);
      var rest := Unpacked(q);
    }
    if h: Header, body, rest :| IsKindOf(h.kind, body) && q == PackHeader(h) + PackBody(body) + rest && Meaning(body) == m {
      PackedDecodes(h, body, rest, 0);
    }
  }

  // ---------- the byte order of the fields

  /** The number that bytes spell, the least significant first. */
  function LittleEndian(s: Bytes): nat {
    if s == [] then 0 else s[0] + 0x100 * LittleEndian(s[1..])
  }

  /** The fields of a message are read in little-endian order, unlike the framing around it. */
  lemma LittleEndian32(data: Bytes, off: nat)
    requires off + 4 <= |data|
    ensures U32At(data, off) == LittleEndian(data[off..off + 4])
  {
    var s := data[off..off + 4];
    assert s[0] == data[off] && s[1..][0] == data[off + 1] && s[1..][1..][0] == data[off + 2];
    assert s[1..][1..][1..] == [data[off + 3]] && [data[off + 3]][1..] == [];
    assert LittleEndian(s[1..][1..][1..]) == data[off + 3];
    var b2: int, b3: int := data[off + 2], data[off + 3];
    assert LittleEndian(s[1..][1..]) == b2 + 0x100 * b3;
  }

  lemma LittleEndian64(data: Bytes, off: nat)
    requires off + 8 <= |data|
    ensures U64At(data, off) == LittleEndian(data[off..off + 8])
  {
    LittleEndian32(data, off);
    LittleEndian32(data, off + 4);
    LittleEndianJoin(data[off..off + 4], data[off + 4..off + 8]);
    assert data[off..off + 8] == data[off..off + 4] + data[off + 4..off + 8];
  }

  lemma LittleEndianJoin(a: Bytes, b: Bytes)
    requires |a| == 4
    ensures LittleEndian(a + b) == LittleEndian(a) + 0x1_0000_0000 * LittleEndian(b)
  {
    var s := a + b;
    assert s[1..][1..][1..][1..] == b && a[1..][1..][1..][1..] == [];
    assert s[0] == a[0] && s[1..][0] == a[1..][0] && s[1..][1..][0] == a[1..][1..][0]
           && s[1..][1..][1..][0] == a[1..][1..][1..][0];
    var a2: int, a3: int := a[1..][1..][0], a[1..][1..][1..][0];
    assert LittleEndian(s[1..][1..][1..]) == a3 + 0x100 * LittleEndian(b) && LittleEndian(a[1..][1..][1..]) == a3;
    assert LittleEndian(s[1..][1..]) == a2 + 0x100 * (a3 + 0x100 * LittleEndian(b));
    assert LittleEndian(a[1..][1..]) == a2 + 0x100 * a3;
  }
}
