/**
 * The packing protocol of uHAL's client side: `Buffers` (a fixed-size send
 * buffer with its reply slots and pending result holders), a transport that
 * receives full buffers, and `PackingProtocol`, which turns register
 * operations into IPbus transactions in the current buffer and starts a new
 * buffer when the current one is full.
 */
module ProtocolInterfaces {
  import opened Words
  import opened IPbus
  import opened PacketLayout
  import opened Wrappers

  /** The five kinds of result holder, each kept in its own deque. */
  datatype ValKind = HeaderKind | UnsignedWord | SignedWord | UnsignedVector | SignedVector

  datatype BlockMode = INCREMENTAL | NON_INCREMENTAL

  /**
   * Why a packing operation fails: an `at(0)` on an empty vector, or a
   * holder registered through `mCurrentBuffers` while it is NULL.
   */
  datatype PackError = IndexOutOfRange | NoCurrentBuffer

  /**
   * A result holder (ValHeader, ValWord or ValVector). The caller keeps a
   * handle to it; validating the buffer that carries its request marks it valid.
   */
  class ValMem {
    const kind: ValKind
    var valid: bool

    constructor (k: ValKind)
      ensures kind == k && !valid
    {
      kind := k;
      valid := false;
    }
  }

  /**
   * One packet being filled: the send bytes (a fixed-size array with a fill
   * counter), the reply slots registered so far (their sizes, in order) with
   * the running reply byte count, and the holders waiting for the reply.
   */
  class Buffers {
    const sendBuffer: array<byte>
    var sendCounter: nat
    var replyBuffer: seq<nat>
    var replyCounter: nat
    var valHeaders: seq<ValMem>
    var unsignedValWords: seq<ValMem>
    var signedValWords: seq<ValMem>
    var unsignedValVectors: seq<ValMem>
    var signedValVectors: seq<ValMem>

    ghost predicate Valid()
      reads this`sendCounter, this`replyCounter, this`replyBuffer
    {
      sendCounter <= sendBuffer.Length && replyCounter == Sum(replyBuffer)
    }

    /** The bytes sent so far. */
    function SendBytes(): seq<byte>
      reads this`sendCounter, this`replyCounter, this`replyBuffer, sendBuffer
      requires Valid()
    {
      sendBuffer[..sendCounter]
    }

    /** Every holder registered, whatever its kind. */
    function Holders(): set<ValMem>
      reads this
    {
      set v | v in valHeaders + unsignedValWords + signedValWords + unsignedValVectors + signedValVectors
    }

    constructor (maxSendSize: nat)
      ensures Valid() && fresh(sendBuffer) && sendBuffer.Length == maxSendSize
      ensures sendCounter == 0 && replyBuffer == [] && replyCounter == 0
      ensures valHeaders == [] && unsignedValWords == [] && signedValWords == []
      ensures unsignedValVectors == [] && signedValVectors == []
    {
      sendBuffer := new byte[maxSendSize];
      sendCounter, replyBuffer, replyCounter := 0, [], 0;
      valHeaders, unsignedValWords, signedValWords := [], [], [];
      unsignedValVectors, signedValVectors := [], [];
    }

    /** Copies `data` to the end of the send bytes and returns where it starts. */
    method Send(data: seq<byte>) returns (start: nat)
      requires Valid() && sendCounter + |data| <= sendBuffer.Length
      modifies this`sendCounter, sendBuffer
      ensures Valid() && start == old(sendCounter)
      ensures sendCounter == old(sendCounter) + |data|
      ensures SendBytes() == old(SendBytes()) + data
    {
      start := sendCounter;
      var i := 0;
      while i < |data|
        invariant 0 <= i <= |data| && sendCounter == start
        invariant sendBuffer[..start] == old(sendBuffer[..start])
        invariant sendBuffer[start..start + i] == data[..i]
      {
        sendBuffer[start + i] := data[i];
        i := i + 1;
      }
      sendCounter := sendCounter + |data|;
    }

    /** Registers a reply slot of `size` bytes at the back. */
    method Receive(size: nat)
      requires Valid()
      modifies this`replyBuffer, this`replyCounter
      ensures Valid()
      ensures replyBuffer == old(replyBuffer) + [size] && replyCounter == old(replyCounter) + size
    {
      SumAppend(replyBuffer, [size]);
      assert Sum([size]) == size + Sum([]);
      replyBuffer := replyBuffer + [size];
      replyCounter := replyCounter + size;
    }

    /** Pushes a holder onto the deque of its own kind. */
    method Add(v: ValMem)
      modifies this`valHeaders, this`unsignedValWords, this`signedValWords
      modifies this`unsignedValVectors, this`signedValVectors
      ensures valHeaders == old(valHeaders) + (if v.kind == HeaderKind then [v] else [])
      ensures unsignedValWords == old(unsignedValWords) + (if v.kind == UnsignedWord then [v] else [])
      ensures signedValWords == old(signedValWords) + (if v.kind == SignedWord then [v] else [])
      ensures unsignedValVectors == old(unsignedValVectors) + (if v.kind == UnsignedVector then [v] else [])
      ensures signedValVectors == old(signedValVectors) + (if v.kind == SignedVector then [v] else [])
    {
      match v.kind
      case HeaderKind => valHeaders := valHeaders + [v];
      case UnsignedWord => unsignedValWords := unsignedValWords + [v];
      case SignedWord => signedValWords := signedValWords + [v];
      case UnsignedVector => unsignedValVectors := unsignedValVectors + [v];
      case SignedVector => signedValVectors := signedValVectors + [v];
    }

    /** `Buffers::validate`: marks every registered holder valid, deque by deque. */
    method MarkValid()
      modifies Holders()
      ensures forall v :: v in old(Holders()) ==> v.valid
    {
      MarkAll(valHeaders);
      MarkAll(unsignedValWords);
      MarkAll(signedValWords);
      MarkAll(unsignedValVectors);
      MarkAll(signedValVectors);
    }
  }

  /** Marks every holder of one deque valid. */
  method MarkAll(s: seq<ValMem>)
    modifies s
    ensures forall v :: v in s ==> v.valid
  {
    var i := 0;
    while i < |s|
      invariant 0 <= i <= |s|
      invariant forall k :: 0 <= k < i ==> s[k].valid
    {
      s[i].valid := true;
      i := i + 1;
    }
  }

  /** The transport, as a sink that records the buffers handed to it and counts flushes. */
  class Transport {
    var dispatched: seq<Buffers>
    var flushes: nat

    constructor ()
      ensures dispatched == [] && flushes == 0
    {
      dispatched, flushes := [], 0;
    }

    method Dispatch(b: Buffers)
      modifies this`dispatched
      ensures dispatched == old(dispatched) + [b]
    {
      dispatched := dispatched + [b];
    }

    method Flush()
      modifies this`flushes
      ensures flushes == old(flushes) + 1
    {
      flushes := flushes + 1;
    }
  }

  /**
   * Buffer sizes the model admits: room for a byte-order transaction and
   * the largest single transaction (20 bytes) in a fresh buffer, and small
   * enough that every chunk's word count fits a header.
   */
  predicate Configured(maxSendSize: nat, maxReplySize: nat) {
    20 < maxSendSize < 0x4_0000 && 20 < maxReplySize < 0x4_0000
  }

  /** A packet that respects the limits: well-formed transactions within both sizes. */
  predicate PacketFits(p: seq<Txn>, maxSendSize: nat, maxReplySize: nat) {
    AllWellFormed(p) && |SendImage(p)| <= maxSendSize && ReplyTotal(p) <= maxReplySize
  }

  /** A packet as it is dispatched: it fits and starts with a byte-order transaction. */
  predicate PacketOk(p: seq<Txn>, maxSendSize: nat, maxReplySize: nat) {
    PacketFits(p, maxSendSize, maxReplySize) && p != [] && p[0].header.ttype == B_O_T
  }

  predicate Fits(reqSend: int, reqReply: int, freeSend: int, freeReply: int) {
    reqSend <= freeSend && reqReply <= freeReply
  }

  /**
   * What a grant promises the caller: exactly the request, or, when the
   * request does not fit, more than 16 bytes on both sides.
   */
  predicate Granted(reqSend: int, reqReply: int, availSend: int, availReply: int) {
    || (availSend == reqSend && availReply == reqReply)
    || (16 < availSend && 16 < availReply && !Fits(reqSend, reqReply, availSend, availReply))
  }

  /**
   * A block chunk cut from a grant for `header` bytes plus `rem` words on
   * one side (the other side asking at most 16): a positive whole number of
   * words, no more than remain, fitting the grant with the header; all of
   * them when the grant is the request.
   */
  lemma ChunkOfGrant(header: nat, rem: nat, other: int, avail: uint32, availOther: int)
    requires 4 <= header <= 12 && 0 < rem && other <= 16
    requires Granted(header + 4 * rem, other, avail, availOther)
    ensures var c := ChunkPayload(avail, header);
            && 0 < c <= 4 * rem && header + c <= avail
            && (avail == header + 4 * rem ==> c == 4 * rem)
  {
  }

  /** The outcome of checkBufferSpace: the space granted, and whether the current buffer was dispatched first. */
  datatype Grant = Grant(send: int, reply: int, dispatch: bool)

  /**
   * The decision checkBufferSpace makes, given the free space of the current
   * buffer and the free space a fresh buffer has once its preamble is in.
   */
  function Decide(reqSend: int, reqReply: int, freeSend: int, freeReply: int, freshSend: int, freshReply: int): (g: Grant)
    ensures g.dispatch <==> !Fits(reqSend, reqReply, freeSend, freeReply) && (freeSend <= 16 || freeReply <= 16)
    ensures !g.dispatch ==> g.send <= freeSend && g.reply <= freeReply
    ensures g.dispatch ==> g.send <= freshSend && g.reply <= freshReply
    ensures Fits(reqSend, reqReply, freeSend, freeReply) ==> g == Grant(reqSend, reqReply, false)
    ensures !Fits(reqSend, reqReply, freeSend, freeReply) && 16 < freeSend && 16 < freeReply
            ==> g == Grant(freeSend, freeReply, false)
    ensures g.dispatch ==> g == if Fits(reqSend, reqReply, freshSend, freshReply) then Grant(reqSend, reqReply, true)
                                else Grant(freshSend, freshReply, true)
    ensures 16 < freshSend && 16 < freshReply ==> Granted(reqSend, reqReply, g.send, g.reply)
  {
    if Fits(reqSend, reqReply, freeSend, freeReply) then Grant(reqSend, reqReply, false)
    else if freeSend > 16 && freeReply > 16 then Grant(freeSend, freeReply, false)
    else if Fits(reqSend, reqReply, freshSend, freshReply) then Grant(reqSend, reqReply, true)
    else Grant(freshSend, freshReply, true)
  }

  /** The address of a block chunk after `before` words: advancing only in INCREMENTAL mode. */
  function ChunkAddress(addr: uint32, mode: BlockMode, before: nat): uint32 {
    if mode == INCREMENTAL then Wrap32(addr + before) else addr
  }

  function BlockType(mode: BlockMode, incremental: TransactionType, fixed: TransactionType): TransactionType {
    if mode == INCREMENTAL then incremental else fixed
  }

  /** Chunk `k` of a block read: a READ (INCREMENTAL) or NI_READ of `words[k] > 0` words at its address. */
  ghost predicate ReadChunkAt(chunks: seq<Txn>, words: seq<nat>, addr: uint32, mode: BlockMode, k: nat)
    requires k < |chunks| == |words|
  {
    && chunks[k].header.id < IdCount && 0 < words[k] <= MaxWords
    && chunks[k] == ReadChunkTxn(chunks[k].header.id, BlockType(mode, READ, NI_READ),
                                 ChunkAddress(addr, mode, Sum(words[..k])), words[k])
  }

  /** The chunks of a block read so far, with their word counts. */
  ghost predicate ReadChunks(chunks: seq<Txn>, words: seq<nat>, addr: uint32, mode: BlockMode) {
    |chunks| == |words| && forall k :: 0 <= k < |chunks| ==> ReadChunkAt(chunks, words, addr, mode, k)
  }

  /**
   * Chunk `k` of a block write: a WRITE (INCREMENTAL) or NI_WRITE at its
   * address, carrying the `words[k] > 0` source words after those of the
   * chunks before it.
   */
  ghost predicate WriteChunkAt(chunks: seq<Txn>, words: seq<nat>, addr: uint32, source: seq<uint32>, mode: BlockMode, k: nat)
    requires k < |chunks| == |words|
  {
    && chunks[k].header.id < IdCount && 0 < words[k] <= MaxWords
    && Sum(words[..k]) + words[k] <= |source|
    && chunks[k] == WriteChunkTxn(chunks[k].header.id, BlockType(mode, WRITE, NI_WRITE),
                                  ChunkAddress(addr, mode, Sum(words[..k])),
                                  source[Sum(words[..k])..Sum(words[..k]) + words[k]])
  }

  /** The chunks of a block write so far, with their word counts. */
  ghost predicate WriteChunks(chunks: seq<Txn>, words: seq<nat>, addr: uint32, source: seq<uint32>, mode: BlockMode) {
    && |chunks| == |words| && Sum(words) <= |source|
    && forall k :: 0 <= k < |chunks| ==> WriteChunkAt(chunks, words, addr, source, mode, k)
  }

  /** One more chunk of a block read, at the address after the words already read. */
  lemma ReadChunksSnoc(chunks: seq<Txn>, words: seq<nat>, addr: uint32, mode: BlockMode, t: Txn, w: nat)
    requires ReadChunks(chunks, words, addr, mode)
    requires t.header.id < IdCount && 0 < w <= MaxWords
    requires t == ReadChunkTxn(t.header.id, BlockType(mode, READ, NI_READ), ChunkAddress(addr, mode, Sum(words)), w)
    ensures ReadChunks(chunks + [t], words + [w], addr, mode) && Sum(words + [w]) == Sum(words) + w
  {
    SumAppend(words, [w]);
    assert Sum([w]) == w + Sum([]);
    var cs, ws := chunks + [t], words + [w];
    forall k | 0 <= k < |cs| ensures ReadChunkAt(cs, ws, addr, mode, k) {
      if k < |words| {
        assert ReadChunkAt(chunks, words, addr, mode, k);
        assert ws[..k] == words[..k] && cs[k] == chunks[k] && ws[k] == words[k];
      } else {
        assert ws[..k] == words;
      }
    }
  }

  /** A chunk of a block write stays what it was when another chunk follows it. */
  lemma WriteChunkAtSnoc(chunks: seq<Txn>, words: seq<nat>, addr: uint32, source: seq<uint32>, mode: BlockMode,
                         t: Txn, w: nat, k: nat)
    requires k < |chunks| == |words| && WriteChunkAt(chunks, words, addr, source, mode, k)
    ensures WriteChunkAt(chunks + [t], words + [w], addr, source, mode, k)
  {
    var cs, ws := chunks + [t], words + [w];
    assert ws[..k] == words[..k] && cs[k] == chunks[k] && ws[k] == words[k];
  }

  /** One more chunk of a block write, carrying the source words after those already sent. */
  lemma WriteChunksSnoc(chunks: seq<Txn>, words: seq<nat>, addr: uint32, source: seq<uint32>, mode: BlockMode, t: Txn, w: nat)
    requires WriteChunks(chunks, words, addr, source, mode)
    requires t.header.id < IdCount && 0 < w <= MaxWords && Sum(words) + w <= |source|
    requires t == WriteChunkTxn(t.header.id, BlockType(mode, WRITE, NI_WRITE), ChunkAddress(addr, mode, Sum(words)),
                                source[Sum(words)..Sum(words) + w])
    ensures WriteChunks(chunks + [t], words + [w], addr, source, mode) && Sum(words + [w]) == Sum(words) + w
  {
    SumAppend(words, [w]);
    assert Sum([w]) == w + Sum([]);
    var cs, ws := chunks + [t], words + [w];
    forall k | 0 <= k < |cs| ensures WriteChunkAt(cs, ws, addr, source, mode, k) {
      if k < |words| {
        WriteChunkAtSnoc(chunks, words, addr, source, mode, t, w, k);
      } else {
        assert ws[..k] == words;
      }
    }
  }

  /**
   * A chunk iteration's effect on the stream: space reservation may add a
   * byte-order transaction, then the chunk's own transaction follows.
   */
  lemma LogStep(l0: seq<Txn>, l1: seq<Txn>, l2: seq<Txn>, t: Txn)
    requires l0 <= l1 && Requests(l1) == Requests(l0)
    requires l2 == l1 + [t] && t.header.ttype != B_O_T
    ensures l0 <= l2 && Requests(l2) == Requests(l0) + [t]
  {
    RequestsSnoc(l1, t);
    PrefixSnoc(l0, l1, t);
  }

  /** The address after a chunk of `w` words: `lAddr += words` (a `uint32_t`) in INCREMENTAL mode, unchanged otherwise. */
  function NextAddress(address: uint32, mode: BlockMode, w: nat): uint32 {
    if mode == INCREMENTAL then Wrap32(address + w) else address
  }

  /** The chunking loops stop exactly when every word has been packed. */
  lemma PayloadDone(payload: int, total: nat, offset: nat)
    requires offset <= total && payload == 4 * (total - offset) && payload <= 0
    ensures offset == total
  {
  }

  /** Advancing the address chunk by chunk gives the address of the words' position in the block. */
  lemma ChunkAddressStep(addr: uint32, mode: BlockMode, offset: nat, w: nat, address: uint32)
    requires address == ChunkAddress(addr, mode, offset)
    ensures NextAddress(address, mode, w) == ChunkAddress(addr, mode, offset + w)
  {
    if mode == INCREMENTAL {
      Wrap32Add(addr + offset, w);
    }
  }

  /**
   * A block write after `offset` words: the stream `l0` has grown into `log`
   * by the chunks (and byte-order transactions only), and the chunks carry
   * the first `offset` source words.
   */
  ghost predicate WriteProgress(l0: seq<Txn>, log: seq<Txn>, chunks: seq<Txn>, words: seq<nat>,
                                addr: uint32, source: seq<uint32>, mode: BlockMode, offset: nat)
  {
    && l0 <= log && Requests(log) == Requests(l0) + chunks
    && WriteChunks(chunks, words, addr, source, mode) && Sum(words) == offset
  }

  lemma WriteProgressStep(l0: seq<Txn>, l1: seq<Txn>, l2: seq<Txn>, chunks: seq<Txn>, words: seq<nat>,
                          addr: uint32, source: seq<uint32>, mode: BlockMode, offset: nat, t: Txn, w: nat)
    requires WriteProgress(l0, l1, chunks, words, addr, source, mode, offset)
    requires l1 <= l2 && Requests(l2) == Requests(l1) + [t]
    requires t.header.id < IdCount && 0 < w <= MaxWords && offset + w <= |source|
    requires t == WriteChunkTxn(t.header.id, BlockType(mode, WRITE, NI_WRITE), ChunkAddress(addr, mode, offset),
                                source[offset..offset + w])
    ensures WriteProgress(l0, l2, chunks + [t], words + [w], addr, source, mode, offset + w)
  {
    WriteChunksSnoc(chunks, words, addr, source, mode, t, w);
    assert l2[..|l0|] == l1[..|l0|];
  }

  /** A block read after `offset` words, as WriteProgress for writes. */
  ghost predicate ReadProgress(l0: seq<Txn>, log: seq<Txn>, chunks: seq<Txn>, words: seq<nat>,
                               addr: uint32, mode: BlockMode, offset: nat)
  {
    && l0 <= log && Requests(log) == Requests(l0) + chunks
    && ReadChunks(chunks, words, addr, mode) && Sum(words) == offset
  }

  lemma ReadProgressStep(l0: seq<Txn>, l1: seq<Txn>, l2: seq<Txn>, chunks: seq<Txn>, words: seq<nat>,
                         addr: uint32, mode: BlockMode, offset: nat, t: Txn, w: nat)
    requires ReadProgress(l0, l1, chunks, words, addr, mode, offset)
    requires l1 <= l2 && Requests(l2) == Requests(l1) + [t]
    requires t.header.id < IdCount && 0 < w <= MaxWords
    requires t == ReadChunkTxn(t.header.id, BlockType(mode, READ, NI_READ), ChunkAddress(addr, mode, offset), w)
    ensures ReadProgress(l0, l2, chunks + [t], words + [w], addr, mode, offset + w)
  {
    ReadChunksSnoc(chunks, words, addr, mode, t, w);
    assert l2[..|l0|] == l1[..|l0|];
  }

  /** Chunk addresses wrap at 2^32 as `uint32_t` additions do. */
  lemma Wrap32Add(x: int, w: int)
    ensures Wrap32(Wrap32(x) + w) == Wrap32(x + w)
  {
    var q := x / 0x1_0000_0000;
    assert x == 0x1_0000_0000 * q + Wrap32(x);
    assert x + w == 0x1_0000_0000 * q + (Wrap32(x) + w);
  }

  /** The transaction id after `id`: ids count up and wrap to 0 after the largest. */
  function NextId(id: nat): (r: nat)
    requires id < IdCount
    ensures r < IdCount && (r == id + 1 || (id == IdCount - 1 && r == 0))
  {
    if id == IdCount - 1 then 0 else id + 1
  }

  /**
   * The packing protocol. `txns` is the packet being filled in `current`,
   * `packets` the packets handed to the transport so far.
   */
  class PackingProtocol {
    const maxSendSize: nat
    const maxReplySize: nat
    const transport: Transport
    var current: Buffers?
    var transactionCounter: nat
    ghost var txns: seq<Txn>
    ghost var packets: seq<seq<Txn>>
    ghost var Repr: set<object>

    /** Buffer `b` holds exactly the images and reply slots of `ts`, within the limits. */
    ghost predicate Holds(b: Buffers, ts: seq<Txn>)
      reads b`sendCounter, b`replyCounter, b`replyBuffer, b.sendBuffer
    {
      && b.Valid()
      && b.sendBuffer.Length == maxSendSize
      && PacketFits(ts, maxSendSize, maxReplySize)
      && (ts != [] ==> ts[0].header.ttype == B_O_T)
      && b.SendBytes() == SendImage(ts)
      && b.replyBuffer == Slots(ts)
    }

    /** The current buffer, as a set (empty when there is none). */
    ghost function Cur(): set<Buffers>
      reads this`current
    {
      if current == null then {} else {current}
    }

    /** The send array of the current buffer, as a set. */
    ghost function CurSend(): set<array<byte>>
      reads this`current
    {
      if current == null then {} else {current.sendBuffer}
    }

    /**
     * The state between operations, and also inside a preamble, when the
     * current buffer is still empty.
     */
    ghost predicate Inv()
      reads this, Cur()`sendCounter, Cur()`replyCounter, Cur()`replyBuffer, CurSend()
    {
      && this in Repr && transport in Repr
      && Configured(maxSendSize, maxReplySize)
      && transactionCounter < IdCount
      && (forall p :: p in packets ==> PacketOk(p, maxSendSize, maxReplySize))
      && (current == null ==> txns == [] && Repr == {this, transport})
      && (current != null ==> Repr == {this, transport, current, current.sendBuffer} && Holds(current, txns))
    }

    /** Between operations a current buffer is never empty: it starts with its byte-order transaction. */
    ghost predicate Valid()
      reads this, Cur()`sendCounter, Cur()`replyCounter, Cur()`replyBuffer, CurSend()
    {
      Inv() && (current != null ==> txns != [])
    }

    /** Termination measure of checkBufferSpace -> Preamble -> ByteOrderTransaction -> checkBufferSpace. */
    ghost function Stage(): nat
      reads this
    {
      if current == null then 1 else if txns == [] then 0 else 2
    }

    /** Free send space, counting the preamble a missing buffer will get. */
    ghost function FreeSend(): int
      reads this, current
    {
      if current == null then maxSendSize - 4 else maxSendSize - current.sendCounter
    }

    ghost function FreeReply(): int
      reads this, current
    {
      if current == null then maxReplySize - 4 else maxReplySize - current.replyCounter
    }

    /** The decision checkBufferSpace makes for a request in the present state. */
    ghost function DecideNow(reqSend: int, reqReply: int): Grant
      reads this, current
    {
      Decide(reqSend, reqReply, FreeSend(), FreeReply(), maxSendSize - 4, maxReplySize - 4)
    }

    /** Every transaction packed so far, in order: the dispatched packets, then the current one. */
    ghost function Log(): seq<Txn>
      reads this`packets, this`txns
    {
      Flatten(packets) + txns
    }

    /** The id the last calculated header carried. */
    ghost function LastId(): nat
      reads this`transactionCounter
    {
      if transactionCounter == 0 then IdCount - 1 else transactionCounter - 1
    }

    /**
     * After packing `t`: `t` ends the current packet, which is the old one,
     * or a fresh one that a byte-order transaction with id `id0` opened
     * (after handing the old one to the transport, if there was one).
     */
    ghost predicate Appended(oldCurrent: Buffers?, oldPackets: seq<seq<Txn>>, oldTxns: seq<Txn>, id0: nat, t: Txn)
      reads this
    {
      && id0 < IdCount
      && if packets == oldPackets && oldCurrent != null then
           current == oldCurrent && txns == oldTxns + [t] && transactionCounter == NextId(id0)
         else
           && txns == [BotTxn(id0)] + [t] && transactionCounter == NextId(NextId(id0))
           && (packets != oldPackets ==> packets == oldPackets + [oldTxns])
    }

    /** The transport received the old buffer exactly when a packet was closed. */
    ghost predicate Handed(oldDispatched: seq<Buffers>, oldPackets: seq<seq<Txn>>, oldCurrent: Buffers?)
      reads this, transport
    {
      if packets == oldPackets then transport.dispatched == oldDispatched
      else oldCurrent != null && transport.dispatched == oldDispatched + [oldCurrent]
    }

    constructor (maxSend: nat, maxReply: nat, t: Transport)
      requires Configured(maxSend, maxReply)
      ensures Valid() && fresh(Repr - {t})
      ensures maxSendSize == maxSend && maxReplySize == maxReply && transport == t
      ensures current == null && packets == []
    {
      maxSendSize, maxReplySize, transport := maxSend, maxReply, t;
      current := null;
      transactionCounter := 0;
      txns, packets := [], [];
      Repr := {this, t};
    }
      /** `calculateIPbusHeader`: the header word of the next transaction, which takes the next id. */
    method CalculateHeader(ttype: TransactionType, words: nat) returns (header: uint32, id: nat)
      requires transactionCounter < IdCount && words <= MaxWords
      modifies this`transactionCounter
      ensures id == old(transactionCounter) && transactionCounter == NextId(id) && LastId() == id
      ensures header == Encode(Header(ttype, words, id, 0))
    {
      id := transactionCounter;
      header := Encode(Header(ttype, words, id, 0));
      transactionCounter := NextId(transactionCounter);
    }

    /** Appending a transaction whose image and reply slots are already in the current buffer. */
    lemma HoldsAppend(b: Buffers, ts: seq<Txn>, t: Txn)
      requires b.Valid() && b.sendBuffer.Length == maxSendSize
      requires PacketFits(ts, maxSendSize, maxReplySize) && WellFormedTxn(t)
      requires ts != [] ==> ts[0].header.ttype == B_O_T
      requires ts == [] ==> t.header.ttype == B_O_T
      requires b.SendBytes() == SendImage(ts) + Image(t) && b.replyBuffer == Slots(ts) + t.replySlots
      requires ReplyTotal(ts) + Sum(t.replySlots) <= maxReplySize
      ensures Holds(b, ts + [t])
    {
      AppendOne(ts, t);
    }

    /**
     * checkBufferSpace: creates and preambles a buffer if there is none;
     * grants the request when it fits, all the free space when both sides
     * have more than 16 bytes free, and otherwise dispatches the buffer and
     * grants the request or the free space of a fresh one.
     */
    method CheckBufferSpace(reqSend: nat, reqReply: nat) returns (availSend: nat, availReply: nat)
      requires Inv()
      modifies Repr
      decreases Stage(), 1
      ensures Inv() && current != null && fresh(Repr - old(Repr))
      ensures old(Stage()) != 0 ==> Valid()
      ensures Grant(availSend, availReply, packets != old(packets)) == old(DecideNow(reqSend, reqReply))
      ensures availSend <= maxSendSize - current.sendCounter && availReply <= maxReplySize - current.replyCounter
      ensures transport.flushes == old(transport.flushes)
      ensures Handed(old(transport.dispatched), old(packets), old(current))
      ensures Log() == old(Log()) + (if packets == old(packets) && old(current) != null then [] else [BotTxn(old(transactionCounter))])
      ensures if packets == old(packets) && old(current) != null
              then current == old(current) && Repr == old(Repr) && txns == old(txns) && transactionCounter == old(transactionCounter)
              else txns == [BotTxn(old(transactionCounter))] && transactionCounter == NextId(old(transactionCounter))
                   && (packets != old(packets) ==> packets == old(packets) + [old(txns)])
    {
      if current == null {
        OpenBuffer();
      }
      var sendFree := maxSendSize - current.sendCounter;
      var replyFree := maxReplySize - current.replyCounter;
      if reqSend <= sendFree && reqReply <= replyFree {
        return reqSend, reqReply;
      }
      if sendFree > 16 && replyFree > 16 {
        return sendFree, replyFree;
      }
      availSend, availReply := Renew(reqSend, reqReply);
    }

    /** The last outcome of checkBufferSpace: dispatch the buffer, open a fresh one and grant what fits in it. */
    method Renew(reqSend: nat, reqReply: nat) returns (availSend: nat, availReply: nat)
      requires Valid() && current != null
      requires !Fits(reqSend, reqReply, FreeSend(), FreeReply()) && (FreeSend() <= 16 || FreeReply() <= 16)
      modifies Repr
      decreases Stage(), 0
      ensures Valid() && current != null && fresh(Repr - old(Repr))
      ensures Grant(availSend, availReply, true) == old(DecideNow(reqSend, reqReply))
      ensures availSend <= maxSendSize - current.sendCounter && availReply <= maxReplySize - current.replyCounter
      ensures transport.flushes == old(transport.flushes)
      ensures transport.dispatched == old(transport.dispatched) + [old(current)]
      ensures packets == old(packets) + [old(txns)] && Log() == old(Log()) + [BotTxn(old(transactionCounter))]
      ensures txns == [BotTxn(old(transactionCounter))] && transactionCounter == NextId(old(transactionCounter))
    {
      HandOff();
      OpenBuffer();
      var sendFree := maxSendSize - current.sendCounter;
      var replyFree := maxReplySize - current.replyCounter;
      if reqSend <= sendFree && reqReply <= replyFree {
        return reqSend, reqReply;
      }
      return sendFree, replyFree;
    }

    /** `mCurrentBuffers = new Buffers ( mMaxSendSize )` followed by the preamble. */
    method OpenBuffer()
      requires Inv() && current == null
      modifies Repr
      decreases Stage(), 0
      ensures Valid() && current != null && fresh(current) && fresh(current.sendBuffer)
      ensures current.sendCounter == 4 && current.replyCounter == 4
      ensures txns == [BotTxn(old(transactionCounter))] && transactionCounter == NextId(old(transactionCounter))
      ensures Log() == old(Log()) + txns && packets == old(packets)
      ensures transport.dispatched == old(transport.dispatched) && transport.flushes == old(transport.flushes)
    {
      current := new Buffers(maxSendSize);
      Repr := {this, transport, current, current.sendBuffer};
      Preamble();
    }

    /**
     * Hands the current buffer to the transport (after the Predispatch hook,
     * which does nothing at this level) and forgets it.
     */
    method HandOff()
      requires Valid() && current != null
      modifies this, transport`dispatched
      ensures Valid() && current == null
      ensures packets == old(packets) + [old(txns)] && Log() == old(Log())
      ensures transport.dispatched == old(transport.dispatched) + [old(current)]
      ensures transactionCounter == old(transactionCounter)
    {
      transport.Dispatch(current);
      FlattenSnoc(packets, txns);
      packets := packets + [txns];
      current := null;
      txns := [];
      Repr := {this, transport};
    }

    /**
     * Dispatch: when a buffer is being filled, hands it to the transport
     * and flushes the transport; otherwise does nothing.
     */
    method Dispatch()
      requires Valid()
      modifies Repr
      ensures Valid() && current == null && Log() == old(Log())
      ensures transactionCounter == old(transactionCounter)
      ensures if old(current) == null
              then packets == old(packets) && transport.dispatched == old(transport.dispatched)
                   && transport.flushes == old(transport.flushes)
              else packets == old(packets) + [old(txns)] && transport.dispatched == old(transport.dispatched) + [old(current)]
                   && transport.flushes == old(transport.flushes) + 1
    {
      if current != null {
        HandOff();
        transport.Flush();
      }
    }

    /** The preamble of a fresh buffer: a byte-order transaction. */
    method Preamble()
      requires Inv() && current != null && txns == []
      modifies Repr
      decreases Stage(), 4
      ensures Valid() && current == old(current) && Repr == old(Repr)
      ensures current.sendCounter == 4 && current.replyCounter == 4
      ensures txns == [BotTxn(old(transactionCounter))] && transactionCounter == NextId(old(transactionCounter))
      ensures packets == old(packets) && transport.dispatched == old(transport.dispatched)
      ensures transport.flushes == old(transport.flushes)
    {
      ghost var id0 := transactionCounter;
      ByteOrderTransaction();
      assert packets == old(packets);
      assert current == old(current);
      assert transactionCounter == NextId(id0);
      assert LastId() == id0;
      assert txns == [BotTxn(id0)];
      assert SendImage(txns) == Image(txns[0]) + SendImage([]);
      assert Slots(txns) == [4] + Slots([]);
      assert Sum([4]) == 4 + Sum([]);
    }

    /**
     * What every operation does once checkBufferSpace has granted the space:
     * calculate the header (taking the next id), send it and the body after
     * it, and register the reply slots, the reply header's first.
     */
    method Emit(ttype: TransactionType, words: nat, body: seq<byte>, slots: seq<nat>) returns (ghost t: Txn)
      requires Inv() && current != null && (txns == [] ==> ttype == B_O_T)
      requires WellFormedTxn(Txn(Header(ttype, words, transactionCounter, 0), body, slots))
      requires 4 + |body| <= maxSendSize - current.sendCounter && Sum(slots) <= maxReplySize - current.replyCounter
      modifies this`transactionCounter, this`txns
      modifies current`sendCounter, current.sendBuffer, current`replyBuffer, current`replyCounter
      ensures t == Txn(Header(ttype, words, old(transactionCounter), 0), body, slots)
      ensures Valid() && txns == old(txns) + [t] && Log() == old(Log()) + [t]
      ensures transactionCounter == NextId(old(transactionCounter)) && LastId() == old(transactionCounter)
      ensures Repr == old(Repr) && current == old(current) && packets == old(packets)
      ensures transport.dispatched == old(transport.dispatched) && transport.flushes == old(transport.flushes)
    {
      ghost var replies := current.replyBuffer;
      var id := SendTransaction(ttype, words, body, slots);
      t := Txn(Header(ttype, words, id, 0), body, slots);
      assert ReplyTotal(txns) + Sum(t.replySlots) <= maxReplySize by {
        SumAppend(replies, t.replySlots);
      }
      HoldsAppend(current, txns, t);
      AppendAssoc(Flatten(packets), txns, [t]);
      txns := txns + [t];
    }

    /** The buffer side of Emit: the header and body go into the send bytes, the slots after the reply slots. */
    method SendTransaction(ttype: TransactionType, words: nat, body: seq<byte>, slots: seq<nat>) returns (id: nat)
      requires current != null && current.Valid() && transactionCounter < IdCount && words <= MaxWords
      requires current.sendCounter + 4 + |body| <= current.sendBuffer.Length && 1 <= |slots| <= 2
      modifies this`transactionCounter
      modifies current`sendCounter, current.sendBuffer, current`replyBuffer, current`replyCounter
      ensures id == old(transactionCounter) && transactionCounter == NextId(id) && LastId() == id
      ensures current.Valid()
      ensures current.SendBytes() == old(current.SendBytes()) + (WordBytes(Encode(Header(ttype, words, id, 0))) + body)
      ensures current.replyBuffer == old(current.replyBuffer) + slots
    {
      var header;
      header, id := CalculateHeader(ttype, words);
      ghost var sent := current.SendBytes();
      var _ := current.Send(WordBytes(header));
      var _ := current.Send(body);
      AppendAssoc(sent, WordBytes(header), body);
      current.Receive(slots[0]);
      if |slots| == 2 {
        current.Receive(slots[1]);
        assert slots == [slots[0], slots[1]];
      } else {
        assert slots == [slots[0]];
      }
    }

    /**
     * A single-transaction operation: checkBufferSpace for the header and
     * body and the reply slots, then Emit. Such a request is at most 16 bytes
     * on each side, so the grant is always exactly the request.
     */
    method Pack(ttype: TransactionType, words: nat, body: seq<byte>, slots: seq<nat>) returns (ghost t: Txn)
      requires Inv() && (ttype != B_O_T ==> Valid())
      requires WellFormedTxn(Txn(Header(ttype, words, 0, 0), body, slots))
      requires 4 + |body| <= 16 && Sum(slots) <= 16
      modifies Repr
      decreases Stage(), 2
      ensures Valid() && fresh(Repr - old(Repr)) && transport.flushes == old(transport.flushes)
      ensures (packets != old(packets)) == old(DecideNow(4 + |body|, Sum(slots))).dispatch
      ensures Handed(old(transport.dispatched), old(packets), old(current))
      ensures t == Txn(Header(ttype, words, LastId(), 0), body, slots)
      ensures Appended(old(current), old(packets), old(txns), old(transactionCounter), t)
      ensures packets == old(packets) && old(current) != null ==> Repr == old(Repr)
    {
      ghost var p0, t0, id0 := packets, txns, transactionCounter;
      ghost var same := old(current) != null && !old(DecideNow(4 + |body|, Sum(slots))).dispatch;
      var availSend, availReply := CheckBufferSpace(4 + |body|, Sum(slots));
      assert availSend == 4 + |body| && availReply == Sum(slots);
      assert same <==> packets == p0 && old(current) != null;
      ghost var t1 := txns;
      assert t1 == if same then t0 else [BotTxn(id0)];
      t := Emit(ttype, words, body, slots);
      assert txns == t1 + [t];
    }

    /** The B_O_T transaction: a 4-byte header sent, a 4-byte reply header expected. */
    method ByteOrderTransaction()
      requires Inv()
      modifies Repr
      decreases Stage(), 3
      ensures Valid() && fresh(Repr - old(Repr)) && transport.flushes == old(transport.flushes)
      ensures (packets != old(packets)) == old(DecideNow(4, 4)).dispatch
      ensures Handed(old(transport.dispatched), old(packets), old(current))
      ensures Appended(old(current), old(packets), old(txns), old(transactionCounter), BotTxn(LastId()))
      ensures packets == old(packets) && old(current) != null ==> Repr == old(Repr)
    {
      ghost var t := Pack(B_O_T, 0, [], [4]);
      var reply := AddHolder(HeaderKind);
    }

    /** write: a WRITE of one word; 12 bytes sent, a 4-byte reply header expected. */
    method Write(addr: uint32, value: uint32)
      requires Valid()
      modifies Repr
      ensures Valid() && fresh(Repr - old(Repr)) && transport.flushes == old(transport.flushes)
      ensures (packets != old(packets)) == old(DecideNow(12, 4)).dispatch
      ensures Handed(old(transport.dispatched), old(packets), old(current))
      ensures Appended(old(current), old(packets), old(txns), old(transactionCounter), WriteTxn(LastId(), addr, value))
    {
      ghost var t := Pack(WRITE, 1, WordBytes(addr) + WordBytes(value), [4]);
      var reply := AddHolder(HeaderKind);
    }

    /** A fresh holder of the given kind, registered in the current buffer. */
    method AddHolder(kind: ValKind) returns (v: ValMem)
      requires Valid() && current != null
      modifies current`valHeaders, current`unsignedValWords, current`signedValWords
      modifies current`unsignedValVectors, current`signedValVectors
      ensures Valid() && fresh(v) && v.kind == kind && !v.valid && v in current.Holders()
    {
      v := new ValMem(kind);
      current.Add(v);
    }

    /** read: a READ of one word; 8 bytes sent, a reply header and a word expected. */
    method Read(addr: uint32) returns (holder: ValMem)
      requires Valid()
      modifies Repr
      ensures Valid() && fresh(Repr - old(Repr)) && transport.flushes == old(transport.flushes)
      ensures (packets != old(packets)) == old(DecideNow(8, 8)).dispatch
      ensures Handed(old(transport.dispatched), old(packets), old(current))
      ensures Appended(old(current), old(packets), old(txns), old(transactionCounter), ReadTxn(LastId(), addr))
      ensures fresh(holder) && holder.kind == UnsignedWord && !holder.valid && holder in current.Holders()
    {
      ghost var t := Pack(READ, 1, WordBytes(addr), [4, 4]);
      holder := AddHolder(UnsignedWord);
    }

    /** readSigned: the same READ, its word held as a signed value. */
    method ReadSigned(addr: uint32) returns (holder: ValMem)
      requires Valid()
      modifies Repr
      ensures Valid() && fresh(Repr - old(Repr)) && transport.flushes == old(transport.flushes)
      ensures (packets != old(packets)) == old(DecideNow(8, 8)).dispatch
      ensures Handed(old(transport.dispatched), old(packets), old(current))
      ensures Appended(old(current), old(packets), old(txns), old(transactionCounter), ReadTxn(LastId(), addr))
      ensures fresh(holder) && holder.kind == SignedWord && !holder.valid && holder in current.Holders()
    {
      ghost var t := Pack(READ, 1, WordBytes(addr), [4, 4]);
      holder := AddHolder(SignedWord);
    }

    /** rmw_bits: address, AND term and OR term; 16 bytes sent, a header and the old value expected. */
    method RmwBits(addr: uint32, andTerm: uint32, orTerm: uint32) returns (holder: ValMem)
      requires Valid()
      modifies Repr
      ensures Valid() && fresh(Repr - old(Repr)) && transport.flushes == old(transport.flushes)
      ensures (packets != old(packets)) == old(DecideNow(16, 8)).dispatch
      ensures Handed(old(transport.dispatched), old(packets), old(current))
      ensures Appended(old(current), old(packets), old(txns), old(transactionCounter), RmwBitsTxn(LastId(), addr, andTerm, orTerm))
      ensures fresh(holder) && holder.kind == UnsignedWord && !holder.valid && holder in current.Holders()
    {
      ghost var t := Pack(RMW_BITS, 1, WordBytes(addr) + WordBytes(andTerm) + WordBytes(orTerm), [4, 4]);
      holder := AddHolder(UnsignedWord);
    }

    /** rmw_sum: address and the addend cast to `uint32_t`; 12 bytes sent, a header and a word expected. */
    method RmwSum(addr: uint32, addend: int32) returns (holder: ValMem)
      requires Valid()
      modifies Repr
      ensures Valid() && fresh(Repr - old(Repr)) && transport.flushes == old(transport.flushes)
      ensures (packets != old(packets)) == old(DecideNow(12, 8)).dispatch
      ensures Handed(old(transport.dispatched), old(packets), old(current))
      ensures Appended(old(current), old(packets), old(txns), old(transactionCounter), RmwSumTxn(LastId(), addr, addend))
      ensures fresh(holder) && holder.kind == SignedWord && !holder.valid && holder in current.Holders()
    {
      ghost var t := Pack(RMW_SUM, 1, WordBytes(addr) + WordBytes(ToUnsigned(addend)), [4, 4]);
      holder := AddHolder(SignedWord);
    }

    /** readReservedAddressInfo: an R_A_I header alone; a header and two words expected. */
    method ReadReservedAddressInfo() returns (holder: ValMem)
      requires Valid()
      modifies Repr
      ensures Valid() && fresh(Repr - old(Repr)) && transport.flushes == old(transport.flushes)
      ensures (packets != old(packets)) == old(DecideNow(4, 12)).dispatch
      ensures Handed(old(transport.dispatched), old(packets), old(current))
      ensures Appended(old(current), old(packets), old(txns), old(transactionCounter), ReservedAddressInfoTxn(LastId()))
      ensures fresh(holder) && holder.kind == UnsignedVector && !holder.valid && holder in current.Holders()
    {
      ghost var t := Pack(R_A_I, 0, [], [4, 8]);
      holder := AddHolder(UnsignedVector);
    }

    /**
     * checkBufferSpace seen from a block operation: the grant it makes, and
     * the only transaction it may add is a byte-order one (so the requests
     * packed so far are unchanged).
     */
    method Reserve(reqSend: nat, reqReply: nat) returns (availSend: nat, availReply: nat)
      requires Valid()
      modifies Repr
      ensures Valid() && fresh(Repr - old(Repr)) && transport.flushes == old(transport.flushes)
      ensures availSend == old(DecideNow(reqSend, reqReply)).send && availReply == old(DecideNow(reqSend, reqReply)).reply
      ensures Granted(reqSend, reqReply, availSend, availReply) && current != null
      ensures availSend <= maxSendSize - current.sendCounter && availReply <= maxReplySize - current.replyCounter
      ensures old(Log()) <= Log() && Requests(Log()) == Requests(old(Log()))
    {
      ghost var l0 := Log();
      ghost var id0 := transactionCounter;
      availSend, availReply := CheckBufferSpace(reqSend, reqReply);
      if Log() != l0 {
        assert Log() == l0 + [BotTxn(id0)];
        RequestsSnoc(l0, BotTxn(id0));
      }
    }

    /**
     * One iteration of writeBlock's loop: request the header and the whole
     * remaining payload, send as many whole words as the grant carries after
     * the 8-byte header, and register a reply header.
     */
    method WriteChunk(address: uint32, source: seq<uint32>, mode: BlockMode, offset: nat) returns (w: nat, ghost t: Txn)
      requires Valid() && offset < |source|
      modifies Repr
      ensures Valid() && fresh(Repr - old(Repr)) && transport.flushes == old(transport.flushes)
      ensures var g := old(DecideNow(8 + 4 * (|source| - offset), 4)).send;
              0 <= g < 0x1_0000_0000 && 4 * w == ChunkPayload(g, 8)
      ensures 0 < w <= |source| - offset && w <= MaxWords
      ensures t.header.id < IdCount
      ensures t == WriteChunkTxn(t.header.id, BlockType(mode, WRITE, NI_WRITE), address, source[offset..offset + w])
      ensures old(Log()) <= Log() && Requests(Log()) == Requests(old(Log())) + [t]
    {
      var availSend, availReply := Reserve(8 + 4 * (|source| - offset), 4);
      ghost var l1 := Log();
      w, t := PackWriteChunk(address, source, mode, offset, availSend, availReply);
      LogStep(old(Log()), l1, Log(), t);
    }

    /** The packing half of a writeBlock iteration, once the space is granted. */
    method PackWriteChunk(address: uint32, source: seq<uint32>, mode: BlockMode, offset: nat, availSend: nat, availReply: nat)
      returns (w: nat, ghost t: Txn)
      requires Valid() && current != null && offset < |source|
      requires Granted(8 + 4 * (|source| - offset), 4, availSend, availReply) && availSend < 0x1_0000_0000
      requires availSend <= maxSendSize - current.sendCounter && availReply <= maxReplySize - current.replyCounter
      modifies this`transactionCounter, this`txns
      modifies current`sendCounter, current.sendBuffer, current`replyBuffer, current`replyCounter
      modifies current`valHeaders, current`unsignedValWords, current`signedValWords
      modifies current`unsignedValVectors, current`signedValVectors
      ensures Valid() && 4 * w == ChunkPayload(availSend, 8)
      ensures Repr == old(Repr) && current != null && transport.flushes == old(transport.flushes)
      ensures 0 < w <= |source| - offset && w <= MaxWords
      ensures t.header.id < IdCount && t.header.ttype != B_O_T
      ensures t == WriteChunkTxn(t.header.id, BlockType(mode, WRITE, NI_WRITE), address, source[offset..offset + w])
      ensures Log() == old(Log()) + [t]
    {
      ChunkOfGrant(8, |source| - offset, 4, availSend, availReply);
      var chunk := ChunkPayload(availSend, 8);
      w := chunk / 4;
      var ttype := BlockType(mode, WRITE, NI_WRITE);
      var body := WordBytes(address) + WordsImage(source[offset..offset + w]);
      t := Emit(ttype, w, body, [4]);
      var reply := AddHolder(HeaderKind);
    }

    /**
     * writeBlock: fails (`at(0)` on an empty vector) before touching
     * anything when the source is empty; otherwise packs the words in
     * chunks whose word counts add up to the source's, each at its address.
     * The payload byte count is the intended `4 * |source|`.
     */
    method WriteBlock(addr: uint32, source: seq<uint32>, mode: BlockMode)
      returns (r: Result<(), PackError>, ghost chunks: seq<Txn>, ghost words: seq<nat>)
      requires Valid()
      modifies Repr
      ensures Valid() && fresh(Repr - old(Repr)) && transport.flushes == old(transport.flushes)
      ensures r.Failure? <==> source == []
      ensures r.Failure? ==> r.error == IndexOutOfRange && Log() == old(Log()) && current == old(current)
                             && transactionCounter == old(transactionCounter)
      ensures WriteProgress(old(Log()), Log(), chunks, words, addr, source, mode, |source|)
    {
      chunks, words := [], [];
      if |source| == 0 {
        return Failure(IndexOutOfRange), chunks, words;
      }
      var payload: int := 4 * |source|;
      var address := addr;
      var offset: nat := 0;
      while payload > 0
        invariant Valid() && fresh(Repr - old(Repr)) && transport.flushes == old(transport.flushes)
        invariant offset <= |source| && payload == 4 * (|source| - offset)
        invariant address == ChunkAddress(addr, mode, offset)
        invariant WriteProgress(old(Log()), Log(), chunks, words, addr, source, mode, offset)
        decreases payload
      {
        var w;
        ghost var t;
        w, address, t := WriteIteration(addr, source, mode, offset, address, old(Log()), chunks, words);
        chunks, words := chunks + [t], words + [w];
        offset := offset + w;
        payload := payload - 4 * w;
      }
      PayloadDone(payload, |source|, offset);
      return Success(()), chunks, words;
    }

    /** One pass of writeBlock's loop body: pack a chunk, then advance the address in incremental mode. */
    method WriteIteration(addr: uint32, source: seq<uint32>, mode: BlockMode, offset: nat, address: uint32,
                          ghost l0: seq<Txn>, ghost chunks: seq<Txn>, ghost words: seq<nat>)
      returns (w: nat, next: uint32, ghost t: Txn)
      requires Valid() && offset < |source| && address == ChunkAddress(addr, mode, offset)
      requires WriteProgress(l0, Log(), chunks, words, addr, source, mode, offset)
      modifies Repr
      ensures Valid() && fresh(Repr - old(Repr)) && transport.flushes == old(transport.flushes)
      ensures 0 < w <= |source| - offset && next == ChunkAddress(addr, mode, offset + w)
      ensures WriteProgress(l0, Log(), chunks + [t], words + [w], addr, source, mode, offset + w)
    {
      ghost var l1 := Log();
      w, t := WriteChunk(address, source, mode, offset);
      WriteProgressStep(l0, l1, Log(), chunks, words, addr, source, mode, offset, t, w);
      ChunkAddressStep(addr, mode, offset, w, address);
      next := NextAddress(address, mode, w);
    }

    /**
     * One iteration of readBlock's loop: request the header and the whole
     * remaining reply payload, read as many whole words as the reply grant
     * carries after the 4-byte reply header.
     */
    method ReadChunk(address: uint32, size: nat, mode: BlockMode, offset: nat) returns (w: nat, ghost t: Txn)
      requires Valid() && offset < size
      modifies Repr
      ensures Valid() && fresh(Repr - old(Repr)) && transport.flushes == old(transport.flushes) && current != null
      ensures var g := old(DecideNow(8, 4 + 4 * (size - offset))).reply;
              0 <= g < 0x1_0000_0000 && 4 * w == ChunkPayload(g, 4)
      ensures 0 < w <= size - offset && w <= MaxWords
      ensures t.header.id < IdCount
      ensures t == ReadChunkTxn(t.header.id, BlockType(mode, READ, NI_READ), address, w)
      ensures old(Log()) <= Log() && Requests(Log()) == Requests(old(Log())) + [t]
    {
      var availSend, availReply := Reserve(8, 4 + 4 * (size - offset));
      assert availReply == old(DecideNow(8, 4 + 4 * (size - offset))).reply < 0x1_0000_0000;
      ghost var l1 := Log();
      w, t := PackReadChunk(address, size, mode, offset, availSend, availReply);
      LogStep(old(Log()), l1, Log(), t);
    }

    /** The packing half of a readBlock iteration, once the space is granted. */
    method PackReadChunk(address: uint32, size: nat, mode: BlockMode, offset: nat, availSend: nat, availReply: nat)
      returns (w: nat, ghost t: Txn)
      requires Valid() && current != null && offset < size
      requires Granted(8, 4 + 4 * (size - offset), availSend, availReply) && availReply < 0x1_0000_0000
      requires availSend <= maxSendSize - current.sendCounter && availReply <= maxReplySize - current.replyCounter
      modifies this`transactionCounter, this`txns
      modifies current`sendCounter, current.sendBuffer, current`replyBuffer, current`replyCounter
      ensures Valid() && 4 * w == ChunkPayload(availReply, 4)
      ensures Repr == old(Repr) && current != null && transport.flushes == old(transport.flushes)
      ensures 0 < w <= size - offset && w <= MaxWords
      ensures t.header.id < IdCount && t.header.ttype != B_O_T
      ensures t == ReadChunkTxn(t.header.id, BlockType(mode, READ, NI_READ), address, w)
      ensures Log() == old(Log()) + [t]
    {
      ChunkOfGrant(4, size - offset, 8, availReply, availSend);
      var chunk := ChunkPayload(availReply, 4);
      w := chunk / 4;
      var ttype := BlockType(mode, READ, NI_READ);
      SumPair(4, chunk);
      t := Emit(ttype, w, WordBytes(address), [4, chunk]);
    }

    /**
     * readBlock and readBlockSigned: packs the read in chunks whose word
     * counts add up to `size`, then registers one vector holder (signed or
     * not) in the buffer of the last chunk. A read of 0 words packs nothing
     * and registers the holder in the current buffer; when there is none,
     * the source's `mCurrentBuffers->add` goes through a NULL pointer, which
     * is the failure here.
     */
    method ReadBlock(addr: uint32, size: uint32, mode: BlockMode, signed: bool)
      returns (r: Result<ValMem, PackError>, ghost chunks: seq<Txn>, ghost words: seq<nat>)
      requires Valid()
      modifies Repr
      ensures Valid() && fresh(Repr - old(Repr)) && transport.flushes == old(transport.flushes)
      ensures ReadProgress(old(Log()), Log(), chunks, words, addr, mode, size)
      ensures r.Failure? <==> size == 0 && old(current) == null
      ensures r.Failure? ==> r.error == NoCurrentBuffer && Log() == old(Log()) && current == old(current)
                             && transactionCounter == old(transactionCounter)
      ensures r.Success? ==> current != null && fresh(r.value) && !r.value.valid && r.value in current.Holders()
                             && r.value.kind == if signed then SignedVector else UnsignedVector
    {
      chunks, words := ReadWords(addr, size, mode);
      if current == null {
        return Failure(NoCurrentBuffer), chunks, words;
      }
      var holder := AddHolder(if signed then SignedVector else UnsignedVector);
      return Success(holder), chunks, words;
    }

    /**
     * The chunking loop of readBlock: the payload byte count is the intended
     * `4 * size`. A read of 0 words leaves everything as it was.
     */
    method ReadWords(addr: uint32, size: uint32, mode: BlockMode) returns (ghost chunks: seq<Txn>, ghost words: seq<nat>)
      requires Valid()
      modifies Repr
      ensures Valid() && fresh(Repr - old(Repr)) && transport.flushes == old(transport.flushes)
      ensures ReadProgress(old(Log()), Log(), chunks, words, addr, mode, size)
      ensures size > 0 ==> current != null
      ensures size == 0 ==> Log() == old(Log()) && current == old(current) && transactionCounter == old(transactionCounter)
    {
      chunks, words := [], [];
      var payload: int := 4 * size;
      if payload == 0 {
        // The loop does not run: nothing is packed.
        return;
      }
      var address := addr;
      var offset: nat := 0;
      while payload > 0
        invariant Valid() && fresh(Repr - old(Repr)) && transport.flushes == old(transport.flushes)
        invariant offset <= size && payload == 4 * (size - offset)
        invariant address == ChunkAddress(addr, mode, offset)
        invariant ReadProgress(old(Log()), Log(), chunks, words, addr, mode, offset)
        invariant offset > 0 ==> current != null
        decreases payload
      {
        var w;
        ghost var t;
        w, address, t := ReadIteration(addr, size, mode, offset, address, old(Log()), chunks, words);
        chunks, words := chunks + [t], words + [w];
        offset := offset + w;
        payload := payload - 4 * w;
      }
      PayloadDone(payload, size, offset);
    }

    /** One pass of readBlock's loop body: pack a chunk, then advance the address in incremental mode. */
    method ReadIteration(addr: uint32, size: nat, mode: BlockMode, offset: nat, address: uint32,
                         ghost l0: seq<Txn>, ghost chunks: seq<Txn>, ghost words: seq<nat>)
      returns (w: nat, next: uint32, ghost t: Txn)
      requires Valid() && offset < size && address == ChunkAddress(addr, mode, offset)
      requires ReadProgress(l0, Log(), chunks, words, addr, mode, offset)
      modifies Repr
      ensures Valid() && fresh(Repr - old(Repr)) && transport.flushes == old(transport.flushes) && current != null
      ensures 0 < w <= size - offset && next == ChunkAddress(addr, mode, offset + w)
      ensures ReadProgress(l0, Log(), chunks + [t], words + [w], addr, mode, offset + w)
    {
      ghost var l1 := Log();
      w, t := ReadChunk(address, size, mode, offset);
      ReadProgressStep(l0, l1, Log(), chunks, words, addr, mode, offset, t, w);
      ChunkAddressStep(addr, mode, offset, w, address);
      next := NextAddress(address, mode, w);
    }
  }

  /**
   * `PackingProtocol::Validate` over a send buffer and the reply slots the
   * transport filled: a do-while loop that checks each request/reply header
   * pair and skips both sides by the amounts of the sent type.
   */
  method Validate(send: seq<byte>, replies: seq<seq<byte>>) returns (ok: bool)
    requires Walkable(send, replies)
    ensures ok == WalkOk(send, replies)
  {
    // The source advances a pointer into each buffer; the unread tails stand for them here.
    var sendRest, replyRest := send, replies;
    while true
      invariant Walkable(sendRest, replyRest)
      invariant WalkOk(send, replies) == WalkOk(sendRest, replyRest)
      decreases |sendRest|
    {
      var sent := Decode(WordAt(sendRest, 0));
      if sent.None? {
        return false;
      }
      var s := sent.value;
      var answered := CheckReply(s, WordAt(replyRest[0], 0));
      if !answered {
        return false;
      }
      if SendStep(s) == |sendRest| || ReplyStep(s.ttype) == |replyRest| {
        return true;
      }
      sendRest, replyRest := sendRest[SendStep(s)..], replyRest[ReplyStep(s.ttype)..];
    }
  }

  /**
   * The checks Validate makes on one reply header against the request header
   * it answers, in the source's order: the header extracts, its info code
   * reports success, and it echoes the request's type and id.
   */
  method CheckReply(request: Header, replyHeader: uint32) returns (ok: bool)
    ensures ok == Answers(request, replyHeader)
  {
    var replied := Decode(replyHeader);
    if replied.None? {
      return false;
    }
    var r := replied.value;
    if r.info != 0 {
      return false;
    }
    if request.ttype != r.ttype {
      return false;
    }
    if request.id != r.id {
      return false;
    }
    return true;
  }

  /**
   * `PackingProtocol::Validate ( Buffers* )`: walks the buffer's send bytes
   * and the replies the transport wrote into its reply slots, and marks every
   * registered holder valid only when the walk accepts.
   */
  method ValidateBuffers(b: Buffers, replies: seq<seq<byte>>) returns (ok: bool)
    requires b.Valid() && Filled(replies, b.replyBuffer) && Walkable(b.SendBytes(), replies)
    modifies b.Holders()
    ensures ok == WalkOk(b.SendBytes(), replies)
    ensures ok ==> forall v :: v in old(b.Holders()) ==> v.valid
    ensures !ok ==> forall v :: v in old(b.Holders()) ==> v.valid == old(v.valid)
  {
    ok := Validate(b.SendBytes(), replies);
    if ok {
      b.MarkValid();
    }
  }

  /**
   * On a buffer the packing protocol filled with the packet `ts`, the
   * validation walk stays in bounds and accepts exactly when every
   * transaction's reply header answers its request.
   */
  lemma PacketValidates(b: Buffers, ts: seq<Txn>, replies: seq<seq<byte>>)
    requires b.Valid() && ts != [] && AllWellFormed(ts)
    requires b.SendBytes() == SendImage(ts) && b.replyBuffer == Slots(ts) && Filled(replies, b.replyBuffer)
    ensures Walkable(b.SendBytes(), replies)
    ensures WalkOk(b.SendBytes(), replies) <==> AllAnswered(ts, replies)
  {
    EmittedLayoutValidates(ts, replies);
  }
}
