/**
 * The layout of an IPbus packet as PackingProtocol builds it, and the walk
 * that PackingProtocol::Validate makes over it.
 *
 * Every packing operation appends one or more transactions to the current
 * send buffer: a header word, then the words of its body; and registers one
 * reply slot per reply field (the reply header first). A `Txn` records one
 * such transaction. Validate walks the send bytes and the reply slots in
 * lockstep; the lemmas here show that the amounts it skips are exactly the
 * amounts the packing operations emit.
 */
module PacketLayout {
  import opened Words
  import opened IPbus
  import opened Wrappers

  /** One packed transaction: its header, the bytes sent after the header, the sizes of its reply slots. */
  datatype Txn = Txn(header: Header, body: seq<byte>, replySlots: seq<nat>)

  /** The body length is the one Validate skips and the first reply slot holds the reply header. */
  predicate WellFormedTxn(t: Txn) {
    && Encodable(t.header)
    && |t.body| + 4 == SendStep(t.header)
    && |t.replySlots| == ReplyStep(t.header.ttype)
    && t.replySlots[0] == 4
  }

  predicate AllWellFormed(ts: seq<Txn>) {
    forall k :: 0 <= k < |ts| ==> WellFormedTxn(ts[k])
  }

  /** The bytes a transaction puts into the send buffer. */
  function Image(t: Txn): (r: seq<byte>)
    requires WellFormedTxn(t)
    ensures |r| == SendStep(t.header)
  {
    WordBytes(Encode(t.header)) + t.body
  }

  /** The send bytes of a sequence of transactions. */
  function SendImage(ts: seq<Txn>): seq<byte>
    requires AllWellFormed(ts)
  {
    if ts == [] then [] else Image(ts[0]) + SendImage(ts[1..])
  }

  /** The reply slot sizes a sequence of transactions registers, in order. */
  function Slots(ts: seq<Txn>): seq<nat> {
    if ts == [] then [] else ts[0].replySlots + Slots(ts[1..])
  }

  function Sum(s: seq<nat>): nat {
    if s == [] then 0 else s[0] + Sum(s[1..])
  }

  lemma SumPair(a: nat, b: nat)
    ensures Sum([a, b]) == a + b
  {
    assert [a, b][1..] == [b];
    assert Sum([a, b]) == a + Sum([b]);
    assert [b][1..] == [];
    assert Sum([b]) == b + Sum([]);
  }

  /** The number of reply bytes a sequence of transactions expects. */
  function ReplyTotal(ts: seq<Txn>): nat {
    Sum(Slots(ts))
  }

  lemma {:induction false} SendImageAppend(a: seq<Txn>, b: seq<Txn>)
    requires AllWellFormed(a) && AllWellFormed(b)
    ensures AllWellFormed(a + b) && SendImage(a + b) == SendImage(a) + SendImage(b)
  {
    assert AllWellFormed(a + b) by {
      forall k | 0 <= k < |a + b| ensures WellFormedTxn((a + b)[k]) {
        if k < |a| { assert (a + b)[k] == a[k]; } else { assert (a + b)[k] == b[k - |a|]; }
      }
    }
    if a == [] {
      assert a + b == b;
    } else {
      assert (a + b)[1..] == a[1..] + b;
      assert (a + b)[0] == a[0];
      SendImageAppend(a[1..], b);
    }
  }

  lemma {:induction false} SlotsAppend(a: seq<Txn>, b: seq<Txn>)
    ensures Slots(a + b) == Slots(a) + Slots(b)
  {
    if a == [] {
      assert a + b == b;
    } else {
      assert (a + b)[1..] == a[1..] + b;
      SlotsAppend(a[1..], b);
    }
  }

  lemma {:induction false} SumAppend(a: seq<nat>, b: seq<nat>)
    ensures Sum(a + b) == Sum(a) + Sum(b)
  {
    if a == [] {
      assert a + b == b;
    } else {
      assert (a + b)[1..] == a[1..] + b;
      SumAppend(a[1..], b);
    }
  }

  /** Appending one transaction adds its image to the send bytes and its slots to the reply slots. */
  lemma AppendOne(ts: seq<Txn>, t: Txn)
    requires AllWellFormed(ts) && WellFormedTxn(t)
    ensures AllWellFormed(ts + [t])
    ensures SendImage(ts + [t]) == SendImage(ts) + Image(t)
    ensures Slots(ts + [t]) == Slots(ts) + t.replySlots
    ensures ReplyTotal(ts + [t]) == ReplyTotal(ts) + Sum(t.replySlots)
  {
    SendImageAppend(ts, [t]);
    SlotsAppend(ts, [t]);
    SumAppend(Slots(ts), t.replySlots);
    assert SendImage([t]) == Image(t) + SendImage([]);
    assert Slots([t]) == t.replySlots + Slots([]);
  }

  // ---------------------------------------------------------------------------
  // The transactions each packing operation emits

  function BotTxn(id: nat): (t: Txn)
    requires id < IdCount
    ensures WellFormedTxn(t) && |Image(t)| == 4 && Sum(t.replySlots) == 4
  {
    Txn(Header(B_O_T, 0, id, 0), [], [4])
  }

  function WriteTxn(id: nat, addr: uint32, value: uint32): (t: Txn)
    requires id < IdCount
    ensures WellFormedTxn(t) && |Image(t)| == 12 && Sum(t.replySlots) == 4
  {
    Txn(Header(WRITE, 1, id, 0), WordBytes(addr) + WordBytes(value), [4])
  }

  function ReadTxn(id: nat, addr: uint32): (t: Txn)
    requires id < IdCount
    ensures WellFormedTxn(t) && |Image(t)| == 8 && Sum(t.replySlots) == 8
  {
    Txn(Header(READ, 1, id, 0), WordBytes(addr), [4, 4])
  }

  function RmwBitsTxn(id: nat, addr: uint32, andTerm: uint32, orTerm: uint32): (t: Txn)
    requires id < IdCount
    ensures WellFormedTxn(t) && |Image(t)| == 16 && Sum(t.replySlots) == 8
  {
    Txn(Header(RMW_BITS, 1, id, 0), WordBytes(addr) + WordBytes(andTerm) + WordBytes(orTerm), [4, 4])
  }

  function RmwSumTxn(id: nat, addr: uint32, addend: int32): (t: Txn)
    requires id < IdCount
    ensures WellFormedTxn(t) && |Image(t)| == 12 && Sum(t.replySlots) == 8
  {
    Txn(Header(RMW_SUM, 1, id, 0), WordBytes(addr) + WordBytes(ToUnsigned(addend)), [4, 4])
  }

  function ReservedAddressInfoTxn(id: nat): (t: Txn)
    requires id < IdCount
    ensures WellFormedTxn(t) && |Image(t)| == 4 && Sum(t.replySlots) == 12
  {
    Txn(Header(R_A_I, 0, id, 0), [], [4, 8])
  }

  /** The image of a run of words, as `memcpy` copies a `std::vector<uint32_t>`. */
  function WordsImage(ws: seq<uint32>): (r: seq<byte>)
    ensures |r| == 4 * |ws|
  {
    if ws == [] then [] else WordBytes(ws[0]) + WordsImage(ws[1..])
  }

  /** One chunk of a block write: WRITE or NI_WRITE, the address, then the chunk's words. */
  function WriteChunkTxn(id: nat, ttype: TransactionType, addr: uint32, payload: seq<uint32>): (t: Txn)
    requires id < IdCount && (ttype == WRITE || ttype == NI_WRITE) && |payload| <= MaxWords
    ensures WellFormedTxn(t) && |Image(t)| == 8 + 4 * |payload| && Sum(t.replySlots) == 4
  {
    Txn(Header(ttype, |payload|, id, 0), WordBytes(addr) + WordsImage(payload), [4])
  }

  /** One chunk of a block read: READ or NI_READ and the address; the reply is a header and `words` words. */
  function ReadChunkTxn(id: nat, ttype: TransactionType, addr: uint32, words: nat): (t: Txn)
    requires id < IdCount && (ttype == READ || ttype == NI_READ) && 0 < words <= MaxWords
    ensures WellFormedTxn(t) && |Image(t)| == 8 && Sum(t.replySlots) == 4 + 4 * words
  {
    assert Sum([4, 4 * words]) == 4 + Sum([4 * words]);
    Txn(Header(ttype, words, id, 0), WordBytes(addr), [4, 4 * words])
  }

  // ---------------------------------------------------------------------------
  // The lockstep walk of PackingProtocol::Validate

  /**
   * The walk reads only bytes and slots that exist: at every step there is a
   * send header and a reply header to read, and the skip it makes on a good
   * step lands inside (or exactly at the end of) both sides.
   */
  predicate Walkable(send: seq<byte>, replies: seq<seq<byte>>)
    decreases |send|
  {
    && 4 <= |send| && 0 < |replies| && 4 <= |replies[0]|
    && match Decode(WordAt(send, 0))
       case None => true
       case Some(h) =>
         && SendStep(h) <= |send| && ReplyStep(h.ttype) <= |replies|
         && (SendStep(h) == |send| || ReplyStep(h.ttype) == |replies|
             || Walkable(send[SendStep(h)..], replies[ReplyStep(h.ttype)..]))
  }

  /** A reply header answers a request header: it extracts, reports no error, and echoes type and id. */
  predicate Answers(request: Header, replyHeader: uint32) {
    match Decode(replyHeader)
    case None => false
    case Some(r) => r.info == 0 && r.ttype == request.ttype && r.id == request.id
  }

  /**
   * The verdict of Validate's do-while loop: check the current pair, then skip
   * both sides by the amounts of the sent type; stop with true once either
   * side is used up.
   */
  function WalkOk(send: seq<byte>, replies: seq<seq<byte>>): bool
    requires Walkable(send, replies)
    decreases |send|
  {
    match Decode(WordAt(send, 0))
    case None => false
    case Some(h) =>
      Answers(h, WordAt(replies[0], 0))
      && (SendStep(h) == |send| || ReplyStep(h.ttype) == |replies|
          || WalkOk(send[SendStep(h)..], replies[ReplyStep(h.ttype)..]))
  }

  /** The transport fills every reply slot with as many bytes as the slot's size. */
  predicate Filled(replies: seq<seq<byte>>, slots: seq<nat>) {
    |replies| == |slots| && forall i :: 0 <= i < |slots| ==> |replies[i]| == slots[i]
  }

  /** Every transaction is answered by the header in its first reply slot. */
  predicate AllAnswered(ts: seq<Txn>, replies: seq<seq<byte>>)
    requires AllWellFormed(ts) && Filled(replies, Slots(ts))
    decreases |ts|
  {
    ts == [] || (
      assert |replies[0]| == 4 by { assert Slots(ts)[0] == ts[0].replySlots[0]; }
      && Answers(ts[0].header, WordAt(replies[0], 0))
      && AllAnswered(ts[1..], replies[|ts[0].replySlots|..]))
  }

  /**
   * The layout the packing operations emit is exactly what Validate skips:
   * on a non-empty packet whose reply slots the transport filled, the walk
   * stays within both buffers, and it accepts if and only if every
   * transaction's reply header answers its request header.
   */
  lemma {:induction false} EmittedLayoutValidates(ts: seq<Txn>, replies: seq<seq<byte>>)
    requires ts != [] && AllWellFormed(ts) && Filled(replies, Slots(ts))
    ensures Walkable(SendImage(ts), replies)
    ensures WalkOk(SendImage(ts), replies) <==> AllAnswered(ts, replies)
  {
    var t := ts[0];
    var send := SendImage(ts);
    var rest := ts[1..];
    assert send == Image(t) + SendImage(rest);
    assert Slots(ts) == t.replySlots + Slots(rest);
    assert replies[0] == replies[0];
    assert |replies[0]| == 4 by { assert Slots(ts)[0] == t.replySlots[0]; }
    assert WordAt(send, 0) == Encode(t.header) by {
      assert send[..4] == WordBytes(Encode(t.header));
      WordRoundTrip(Encode(t.header));
    }
    DecodeEncode(t.header);
    var s, r := SendStep(t.header), ReplyStep(t.header.ttype);
    assert send[s..] == SendImage(rest);
    assert Filled(replies[r..], Slots(rest));
    if rest == [] {
      assert s == |send| && r == |replies|;
    } else {
      EmittedLayoutValidates(rest, replies[r..]);
      assert |SendImage(rest)| >= 4 by {
        assert SendImage(rest) == Image(rest[0]) + SendImage(rest[1..]);
      }
      assert |Slots(rest)| >= 1 by {
        assert Slots(rest) == rest[0].replySlots + Slots(rest[1..]);
      }
    }
  }

  // ---------------------------------------------------------------------------
  // Block chunking arithmetic

  /**
   * The payload a granted space carries in a block chunk,
   * `( granted - header ) & 0xFFFFFFFC` on `uint32_t`: a whole number of
   * words that, with the header, fits the grant.
   */
  function ChunkPayload(granted: uint32, header: uint32): (r: uint32)
    ensures r % 4 == 0
    ensures header <= granted ==> header + r <= granted && granted - header - r < 4
  {
    var d := Wrap32(granted - header);
    d - d % 4
  }

  /** `int32_t` conversion of a `uint32_t` (two's complement). */
  function AsInt32(x: uint32): (r: int32)
    ensures r % 0x1_0000_0000 == x
  {
    if x < 0x8000_0000 then x else x - 0x1_0000_0000
  }

  /**
   * The payload byte count writeBlock and readBlock start from, as written:
   * `int32_t lPayloadByteCount ( n << 2 )`. It agrees with `4 * n` modulo
   * 2^32 always, and equals it for blocks below 2^29 words.
   */
  function PayloadByteCountAsWritten(n: nat): (r: int32)
    ensures r % 0x1_0000_0000 == (4 * n) % 0x1_0000_0000
    ensures n < 0x2000_0000 ==> r == 4 * n
  {
    AsInt32(Wrap32(4 * n))
  }

  /**
   * A block of 2^29 words gets a negative count, so the chunk loop emits
   * nothing; a block of 2^30 + 1 words gets a count of 4, so one word is sent.
   */
  lemma PayloadByteCountWraps()
    ensures PayloadByteCountAsWritten(0x2000_0000) < 0
    ensures PayloadByteCountAsWritten(0x4000_0001) == 4
  {
  }

  // ---------------------------------------------------------------------------
  // Packets and the transaction stream

  /** The transactions of a run of packets, in packing order. */
  function Flatten(ps: seq<seq<Txn>>): seq<Txn> {
    if ps == [] then [] else Flatten(ps[..|ps| - 1]) + ps[|ps| - 1]
  }

  /** The transactions a user asked for: every transaction but the byte-order ones a new packet starts with. */
  function Requests(ts: seq<Txn>): seq<Txn> {
    if ts == [] then []
    else if ts[|ts| - 1].header.ttype == B_O_T then Requests(ts[..|ts| - 1])
    else Requests(ts[..|ts| - 1]) + [ts[|ts| - 1]]
  }

  /** The requests of a stream are exactly its transactions other than byte-order ones. */
  lemma {:induction false} RequestsMembers(ts: seq<Txn>)
    ensures |Requests(ts)| <= |ts|
    ensures forall t :: t in Requests(ts) <==> t in ts && t.header.ttype != B_O_T
  {
    if ts != [] {
      var init, last := ts[..|ts| - 1], ts[|ts| - 1];
      RequestsMembers(init);
      assert ts == init + [last];
    }
  }

  /** A prefix stays a prefix when the longer sequence grows. */
  lemma PrefixSnoc<T>(a: seq<T>, b: seq<T>, x: T)
    requires a <= b
    ensures a <= b + [x]
  {
    assert (b + [x])[..|a|] == b[..|a|];
  }

  lemma AppendAssoc<T>(a: seq<T>, b: seq<T>, c: seq<T>)
    ensures (a + b) + c == a + (b + c)
  {
  }

  lemma FlattenSnoc(ps: seq<seq<Txn>>, p: seq<Txn>)
    ensures Flatten(ps + [p]) == Flatten(ps) + p
  {
    assert (ps + [p])[..|ps|] == ps;
  }

  /** Packing a user transaction adds it to the requests; packing a byte-order transaction adds nothing. */
  lemma RequestsSnoc(ts: seq<Txn>, t: Txn)
    ensures Requests(ts + [t]) == Requests(ts) + (if t.header.ttype == B_O_T then [] else [t])
  {
    assert (ts + [t])[..|ts|] == ts;
  }
}
