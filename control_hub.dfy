/**
 * The ControlHub framing layer. A ControlHub client wraps an inner packing
 * protocol: every send buffer starts with a 12-byte preamble (byte count,
 * device IP address, device port, word count) whose two counts are patched
 * just before the buffer is dispatched, and every reply starts with a
 * 16-byte preamble (total byte count, chunk byte count, device IP address,
 * device port, error code) that is checked before the rest of the reply is
 * handed to the inner protocol. One preamble record per buffer is kept in a
 * FIFO: pushed at the back when the preamble is written, popped at the front
 * when the reply is checked.
 *
 * The inner protocol's own preamble, predispatch and validate hooks are not
 * part of this model; `validate` returns where the inner protocol would take
 * over instead of calling it.
 */
module ControlHub {
  import opened Words
  import opened PacketLayout
  import opened ProtocolInterfaces

  /** Where one buffer's preamble placeholders are: the byte-count word and the word-count half-word. */
  datatype PreambleRecord = PreambleRecord(sendByteCountAt: nat, sendWordCountAt: nat)

  /** Why a reply preamble was refused, with the value read from the reply. */
  datatype HubFault = AddressMismatch(address: uint32) | PortMismatch(port: uint16) | HubErrorCode(code: uint16)

  /**
   * The outcome of validate: refused, or handed to the inner protocol with
   * the send bytes and the reply slots from these positions on.
   */
  datatype Verdict = Refused(fault: HubFault) | Delegated(sendStart: nat, replyStart: nat)

  /** The twelve send bytes of a fresh preamble: placeholder, device IP, device port, placeholder. */
  function PreambleBytes(ipNet: uint32, portNet: uint16): (r: seq<byte>)
    ensures |r| == 12
  {
    WordBytes(0) + WordBytes(ipNet) + HalfBytes(portNet) + HalfBytes(0)
  }

  /** The reply slots of a preamble: total byte count, chunk byte count, IP address, port, error code. */
  const PreambleReplySlots: seq<nat> := [4, 4, 4, 2, 2]

  /** `s` with `d` written over it from position `at` on. */
  function Overwritten(s: seq<byte>, at: nat, d: seq<byte>): (r: seq<byte>)
    requires at + |d| <= |s|
    ensures |r| == |s|
  {
    s[..at] + d + s[at + |d|..]
  }

  /** Byte by byte, an overwritten sequence holds `d` from `at` on and `s` elsewhere. */
  lemma OverwrittenAt(s: seq<byte>, at: nat, d: seq<byte>)
    requires at + |d| <= |s|
    ensures forall i :: 0 <= i < |s| ==> Overwritten(s, at, d)[i] == if at <= i < at + |d| then d[i - at] else s[i]
  {
  }

  /** The byte count patched into the preamble: `sendCounter - 4` in `uint32_t` arithmetic. */
  function ByteCountField(sendCounter: nat): (r: uint32)
    ensures 4 <= sendCounter < 0x1_0000_0004 ==> r == sendCounter - 4
  {
    Wrap32(sendCounter - 4)
  }

  /**
   * The word count patched into the preamble: `(sendCounter - 12) >> 2` in
   * `uint32_t` arithmetic, truncated to the `uint16_t` that htons takes.
   */
  function WordCountField(sendCounter: nat): (r: uint16)
    ensures 12 <= sendCounter < 12 + 4 * 0x1_0000 ==> r == (sendCounter - 12) / 4
  {
    (Wrap32(sendCounter - 12) / 4) % 0x1_0000
  }

  /** getPreambleSize: three words more than the inner protocol's preamble, in `uint32_t`. */
  function PreambleSize(innerSize: uint32): (r: uint32)
    ensures innerSize < 0xFFFF_FFFD ==> r == innerSize + 3
    ensures 0xFFFF_FFFD <= innerSize ==> r < 3
  {
    Wrap32(innerSize + 3)
  }

  /** Writes `data` over the send bytes from `at` on, as a store through a saved pointer does. */
  method Store(b: Buffers, at: nat, data: seq<byte>)
    requires b.Valid() && at + |data| <= b.sendCounter
    modifies b.sendBuffer
    ensures b.Valid() && b.SendBytes() == Overwritten(old(b.SendBytes()), at, data)
  {
    var i := 0;
    while i < |data|
      invariant 0 <= i <= |data|
      invariant forall j :: 0 <= j < b.sendBuffer.Length ==>
                  b.sendBuffer[j] == if at <= j < at + i then data[j - at] else old(b.sendBuffer[j])
    {
      b.sendBuffer[at + i] := data[i];
      i := i + 1;
    }
    OverwrittenAt(old(b.SendBytes()), at, data);
  }

  /** Reserves the five reply slots the preamble's reply occupies. */
  method ReservePreambleReplies(b: Buffers)
    requires b.Valid()
    modifies b`replyBuffer, b`replyCounter
    ensures b.Valid() && b.replyCounter == old(b.replyCounter) + 16
    ensures b.replyBuffer == old(b.replyBuffer) + PreambleReplySlots
  {
    ghost var slots := b.replyBuffer;
    b.Receive(4);
    b.Receive(4);
    b.Receive(4);
    b.Receive(2);
    b.Receive(2);
    assert b.replyBuffer == slots + [4, 4, 4, 2, 2];
  }

  class Hub {
    /** The device IP address and port, kept in network byte order. */
    const deviceIPaddress: uint32
    const devicePort: uint16
    /** The inner protocol's getPreambleSize, in words. */
    const innerPreambleSize: uint32
    /** One record per buffer whose preamble was written and whose reply is not yet checked. */
    var preambles: seq<PreambleRecord>

    /** The target's IP address and port are what ExtractTargetID reads from the URI. */
    constructor (ip: uint32, port: uint16, innerPreambleSize: uint32)
      ensures deviceIPaddress == Htonl(ip) && devicePort == Htons(port) && preambles == []
      ensures this.innerPreambleSize == innerPreambleSize
    {
      deviceIPaddress := Htonl(ip);
      devicePort := Htons(port);
      this.innerPreambleSize := innerPreambleSize;
      preambles := [];
    }

    /**
     * preamble: appends the 12 preamble bytes to the send bytes and the five
     * preamble slots to the reply slots, and pushes the record of where the
     * two placeholders are. The bytes it sends are the words getPreambleSize
     * adds to the inner protocol's preamble.
     */
    method Preamble(b: Buffers)
      requires b.Valid() && b.sendCounter + 12 <= b.sendBuffer.Length
      modifies this`preambles, b`sendCounter, b.sendBuffer, b`replyBuffer, b`replyCounter
      ensures b.Valid() && b.sendCounter == old(b.sendCounter) + 12
      ensures innerPreambleSize < 0xFFFF_FFFD
              ==> b.sendCounter == old(b.sendCounter) + 4 * (PreambleSize(innerPreambleSize) - innerPreambleSize)
      ensures b.SendBytes() == old(b.SendBytes()) + PreambleBytes(deviceIPaddress, devicePort)
      ensures b.replyBuffer == old(b.replyBuffer) + PreambleReplySlots
      ensures b.replyCounter == old(b.replyCounter) + 16
      ensures preambles == old(preambles) + [PreambleRecord(old(b.sendCounter), old(b.sendCounter) + 10)]
    {
      ghost var sent := b.SendBytes();
      var byteCountAt := b.Send(WordBytes(0));
      var _ := b.Send(WordBytes(deviceIPaddress));
      var _ := b.Send(HalfBytes(devicePort));
      var wordCountAt := b.Send(HalfBytes(0));
      AppendAssoc(sent, WordBytes(0), WordBytes(deviceIPaddress));
      AppendAssoc(sent, WordBytes(0) + WordBytes(deviceIPaddress), HalfBytes(devicePort));
      AppendAssoc(sent, WordBytes(0) + WordBytes(deviceIPaddress) + HalfBytes(devicePort), HalfBytes(0));
      preambles := preambles + [PreambleRecord(byteCountAt, wordCountAt)];
      ReservePreambleReplies(b);
    }

    /**
     * predispatch: patches the most recent preamble with the byte count
     * after the byte-count field and the word count after the whole
     * preamble, both in network byte order.
     */
    method Predispatch(b: Buffers)
      requires b.Valid() && preambles != []
      requires preambles[|preambles| - 1].sendByteCountAt + 4 <= b.sendCounter
      requires preambles[|preambles| - 1].sendWordCountAt + 2 <= b.sendCounter
      modifies b.sendBuffer
      ensures b.Valid()
      ensures var r := preambles[|preambles| - 1];
              b.SendBytes() == Overwritten(Overwritten(old(b.SendBytes()), r.sendByteCountAt,
                                                       WordBytes(Htonl(ByteCountField(b.sendCounter)))),
                                           r.sendWordCountAt, HalfBytes(Htons(WordCountField(b.sendCounter))))
    {
      var r := preambles[|preambles| - 1];
      var byteCount := b.sendCounter;
      Store(b, r.sendByteCountAt, WordBytes(Htonl(ByteCountField(byteCount))));
      Store(b, r.sendWordCountAt, HalfBytes(Htons(WordCountField(byteCount))));
    }

    /**
     * validate: skips the two byte-count slots of the reply preamble, then
     * refuses a reply whose IP address, port or error code is wrong, in that
     * order; every path pops the oldest preamble record. On success the send
     * bytes after the 12-byte preamble and the reply slots after the five
     * preamble slots go to the inner protocol.
     */
    method Validate(sendStart: nat, replies: seq<seq<byte>>, at: nat) returns (v: Verdict)
      requires preambles != []
      requires at + 5 <= |replies| && 4 <= |replies[at + 2]| && 2 <= |replies[at + 3]| && 2 <= |replies[at + 4]|
      modifies this`preambles
      ensures preambles == old(preambles)[1..]
      ensures var ip, port, code := WordAt(replies[at + 2], 0), HalfAt(replies[at + 3], 0), HalfAt(replies[at + 4], 0);
              && (ip != deviceIPaddress ==> v == Refused(AddressMismatch(ip)))
              && (ip == deviceIPaddress && port != devicePort ==> v == Refused(PortMismatch(port)))
              && (ip == deviceIPaddress && port == devicePort && code != 0 ==> v == Refused(HubErrorCode(code)))
              && (ip == deviceIPaddress && port == devicePort && code == 0 ==> v == Delegated(sendStart + 12, at + 5))
    {
      var it := at;
      it := it + 2;
      var replyIPaddress := WordAt(replies[it], 0);
      if replyIPaddress != deviceIPaddress {
        preambles := preambles[1..];
        return Refused(AddressMismatch(replyIPaddress));
      }
      it := it + 1;
      var replyPort := HalfAt(replies[it], 0);
      if replyPort != devicePort {
        preambles := preambles[1..];
        return Refused(PortMismatch(replyPort));
      }
      it := it + 1;
      var errorCode := HalfAt(replies[it], 0);
      if errorCode != 0 {
        preambles := preambles[1..];
        return Refused(HubErrorCode(errorCode));
      }
      preambles := preambles[1..];
      return Delegated(sendStart + 12, it + 1);
    }
  }

  /** The address check accepts exactly a reply slot that starts with the device's IP address in network order. */
  lemma AddressCheck(slot: seq<byte>, ip: uint32)
    requires 4 <= |slot|
    ensures WordAt(slot, 0) == Htonl(ip) <==> slot[..4] == BigEndian32(ip)
  {
    WordBytesOfWordAt(slot, 0);
    HtonlImage(ip);
    if slot[..4] == BigEndian32(ip) {
      WordBytesOfWordAt(BigEndian32(ip), 0);
      assert WordAt(slot, 0) == WordAt(BigEndian32(ip), 0);
    }
  }

  /** The port check accepts exactly a reply slot that starts with the device's port in network order. */
  lemma PortCheck(slot: seq<byte>, port: uint16)
    requires 2 <= |slot|
    ensures HalfAt(slot, 0) == Htons(port) <==> slot[..2] == BigEndian16(port)
  {
    HalfBytesOfHalfAt(slot, 0);
    HtonsImage(port);
    if slot[..2] == BigEndian16(port) {
      assert HalfAt(slot, 0) == HalfAt(BigEndian16(port), 0);
    }
  }

  /** A buffer holding `pre`, a fresh preamble and `rest`, as predispatch patches it. */
  function PatchedBuffer(pre: seq<byte>, ip: uint32, port: uint16, rest: seq<byte>): (r: seq<byte>)
    ensures |r| == |pre| + 12 + |rest|
  {
    var s := pre + PreambleBytes(Htonl(ip), Htons(port)) + rest;
    Overwritten(Overwritten(s, |pre|, WordBytes(Htonl(ByteCountField(|s|)))),
                |pre| + 10, HalfBytes(Htons(WordCountField(|s|))))
  }

  /** What the patched preamble should read, in network byte order, once the buffer holds `n` bytes. */
  function ReadBack(pre: seq<byte>, ip: uint32, port: uint16, rest: seq<byte>, n: uint32): (r: seq<byte>)
    requires 4 <= n
  {
    pre + BigEndian32(n - 4) + BigEndian32(ip) + BigEndian16(port) + BigEndian16(WordCountField(n)) + rest
  }

  /**
   * A preamble written at `|pre|` and patched by predispatch once the buffer
   * holds `n` bytes reads, in network byte order: the byte count after the
   * byte-count field, the IP address, the port, and the number of words
   * after the preamble.
   */
  lemma PatchedPreamble(pre: seq<byte>, ip: uint32, port: uint16, rest: seq<byte>)
    requires |pre| + 12 + |rest| < 0x1_0000_0000
    requires |pre| == 0 ==> |rest| < 4 * 0x1_0000
    ensures var n := |pre| + 12 + |rest|;
            && PatchedBuffer(pre, ip, port, rest) == ReadBack(pre, ip, port, rest, n)
            && (|pre| == 0 ==> WordCountField(n) == |rest| / 4)
  {
    var n := |pre| + 12 + |rest|;
    Repatch(pre, WordBytes(0), WordBytes(Htonl(ip)), HalfBytes(Htons(port)), HalfBytes(0), rest,
            WordBytes(Htonl(ByteCountField(n))), HalfBytes(Htons(WordCountField(n))));
    HtonlImage(ByteCountField(n));
    HtonlImage(ip);
    HtonsImage(port);
    HtonsImage(WordCountField(n));
  }

  /** Writing over the first word and the last half-word of a 12-byte block in the middle of a buffer. */
  lemma Repatch(pre: seq<byte>, w0: seq<byte>, w1: seq<byte>, h0: seq<byte>, h1: seq<byte>, rest: seq<byte>,
                x: seq<byte>, y: seq<byte>)
    requires |w0| == |w1| == |x| == 4 && |h0| == |h1| == |y| == 2
    ensures Overwritten(Overwritten(pre + (w0 + w1 + h0 + h1) + rest, |pre|, x), |pre| + 10, y)
         == pre + x + w1 + h0 + y + rest
  {
    var s := pre + (w0 + w1 + h0 + h1) + rest;
    var a := |pre|;
    var once := Overwritten(s, a, x);
    OverwrittenAt(s, a, x);
    OverwrittenAt(once, a + 10, y);
    var patched, expected := Overwritten(once, a + 10, y), pre + x + w1 + h0 + y + rest;
    forall i | 0 <= i < |s|
      ensures patched[i] == expected[i]
    {
      if i < a {
      } else if i < a + 4 {
      } else if i < a + 8 {
        assert s[i] == w1[i - a - 4];
      } else if i < a + 10 {
        assert s[i] == h0[i - a - 8];
      } else if i < a + 12 {
      } else {
        assert s[i] == rest[i - a - 12];
      }
    }
  }
}
