/** The BLE-style transport in place (src/ledger_protocol.c): the fields of ledger_protocol_t. */
module LedgerProtocols {
  import opened CTypes
  import opened BleTransport

  /** The chunk buffer after a chunk has been received: the channel is kept, and a chunk that is not part of an
      APDU is answered with the protocol version, an acknowledgement, an echo or the MTU. */
  function Answer(chunk: seq<byte>, mtu: uint16): (a: seq<byte>)
    requires |chunk| >= 3
    ensures |a| == CHUNK_SIZE && a[0] == chunk[0] && a[1] == chunk[1]
  {
    if chunk[2] == 0x02 then
      var n := Min(CHUNK_SIZE, |chunk|);
      chunk[..n] + Fill(CHUNK_SIZE - n)
    else
      var body := if chunk[2] == 0x01 then [0x01]
                  else if chunk[2] == 0x08 then [0x08, 0x00, 0x00, 0x00, 0x01, Lo(mtu)]
                  else [];  // the tag and the four bytes of the version are zero
      chunk[..2] + body + Fill(CHUNK_SIZE - 2 - |body|)
  }

  /** How much of the chunk buffer is to be sent back; n is what it was before. */
  function AnswerLength(chunk: seq<byte>, n: byte): byte
    requires |chunk| >= 3
  {
    if chunk[2] == 0x00 then 7
    else if chunk[2] == 0x01 then 3
    else if chunk[2] == 0x02 then Min(CHUNK_SIZE, |chunk|)
    else if chunk[2] == 0x08 then 8
    else n
  }

  /** The answers byte by byte: version 0.0.0.0, an acknowledgement, an echo, and the low byte of the MTU. */
  lemma AnswerBytes(chunk: seq<byte>, mtu: uint16, k: nat)
    requires |chunk| >= 3 && k < 158
    ensures |Answer(chunk, mtu)| == 158
    ensures Answer(chunk, mtu)[k] as int ==
      if chunk[2] == 2 then (if k < |chunk| then chunk[k] as int else 0)
      else if k < 2 then chunk[k]
      else if chunk[2] == 1 then (if k == 2 then 1 else 0)
      else if chunk[2] == 8 then (if k == 2 then 8 else if k == 6 then 1 else if k == 7 then mtu % 256 else 0)
      else 0
  {
  }

  lemma AnswerLengths(chunk: seq<byte>, n: byte)
    requires |chunk| >= 3
    ensures AnswerLength(chunk, n) as int ==
      match chunk[2]
      case 0 => 7
      case 1 => 3
      case 2 => if |chunk| < 158 then |chunk| else 158
      case 8 => 8
      case _ => n
  {
  }

  /** A chunk without an answer leaves the channel and the length. */
  lemma NoAnswer(c: seq<byte>, mtu: uint16, n: byte)
    requires |c| >= 3
    ensures c[2] != 0x01 && c[2] != 0x02 && c[2] != 0x08 ==> Answer(c, mtu) == c[..2] + Fill(CHUNK_SIZE - 2)
    ensures c[2] != 0x00 && c[2] != 0x01 && c[2] != 0x02 && c[2] != 0x08 ==> AnswerLength(c, n) == n
  {
  }

  lemma MtuAnswer(c: seq<byte>, mtu: uint16, n: byte)
    requires |c| >= 3 && c[2] == 0x08
    ensures Answer(c, mtu) == c[..2] + [0x08, 0x00, 0x00, 0x00, 0x01, Lo(mtu)] + Fill(CHUNK_SIZE - 8)
    ensures AnswerLength(c, n) == 8
  {
  }

  /** What a chunk of three or more bytes means to the receiver. */
  lemma Received(r: Receiver, c: seq<byte>)
    requires Consistent(r) && |c| >= 3
    ensures Receive(r, c) == if c[2] == 0x05 then ProcessChunk(r, c[3..]) else r
    ensures Consistent(Receive(r, c))
  {
    ReceiveKeepsConsistent(r, c);
  }

  /** A chunk is its header and its payload. */
  lemma ChunkIs(s: Sender, channel: seq<byte>, mtu: Mtu, header: seq<byte>, chunk: seq<byte>)
    requires s.offset <= |s.data|
    requires header == channel + [TAG_APDU, Hi(s.seqNo), Lo(s.seqNo)] +
                       if s.seqNo == 0 then [Hi(|s.data|), Lo(|s.data|)] else []
    requires s.offset <= PayloadEnd(s, mtu) <= |s.data| && chunk == header + s.data[s.offset..PayloadEnd(s, mtu)]
    ensures NextChunk(s, channel, mtu) == chunk
  {
  }

  /** The first fields of part of a buffer. */
  lemma Fields(b: seq<byte>, start: nat, length: nat)
    requires start + length <= |b|
    ensures var c := b[start..start + length];
      && (length >= 2 ==> U2BE(c, 0) == U2BE(b, start) && b[start + 2..start + length] == c[2..])
      && (length >= 4 ==> U2BE(c, 2) == U2BE(b, start + 2) && b[start + 4..start + length] == c[4..])
  {
  }

  /** A sender behind its next chunk; its data no longer matters when it is done. */
  lemma AfterChunk(s: Sender, s': Sender, channel: seq<byte>, mtu: Mtu)
    requires Sending(s, mtu) && s'.(data := s.data) == Advance(s, mtu) && (s'.pending ==> s'.data == s.data)
    ensures s'.pending ==> Sending(s', mtu) && s'.seqNo > 0 && (s.seqNo > 0 ==> s'.offset > s.offset)
    ensures Chunks(s, channel, mtu) ==
      [NextChunk(s, channel, mtu)] + if s'.pending then Chunks(s', channel, mtu) else []
  {
    ChunksUnfold(s, channel, mtu);
    AdvanceKeepsSending(s, mtu);
  }

  lemma ChannelKept(s: Sender, channel: seq<byte>, mtu: Mtu)
    requires Sending(s, mtu) && |channel| == 2
    ensures |NextChunk(s, channel, mtu)| >= 2 && NextChunk(s, channel, mtu)[..2] == channel
  {
  }

  class LedgerProtocol {
    // tx_apdu_*
    var txBuffer: array?<byte>
    var txLength: uint16
    var txSeqNo: uint16
    var txOffset: uint16
    // the chunk being received or sent
    const chunk: array<byte>
    var chunkLength: byte
    // rx_apdu_*
    const rxBuffer: array<byte>
    const rxMaxLength: uint16
    var rxStatus: Status
    var rxSeqNo: uint16
    var rxLength: uint16
    var rxOffset: uint16
    var mtu: uint16

    /** A protocol object as the caller of LEDGER_PROTOCOL_init hands it over, with the given buffer. */
    constructor (buffer: array<byte>, maxLength: uint16, mtu: uint16)
      requires maxLength <= buffer.Length
      ensures rxBuffer == buffer && rxMaxLength == maxLength && this.mtu == mtu
      ensures txBuffer == null && chunk.Length == CHUNK_SIZE && fresh(chunk)
    {
      txBuffer, txLength, txSeqNo, txOffset := null, 0, 0, 0;
      chunk, chunkLength := new byte[CHUNK_SIZE](_ => 0), 0;
      rxBuffer, rxMaxLength, rxLength, rxOffset := buffer, maxLength, 0, 0;
      this.mtu := mtu;
      rxStatus, rxSeqNo := Waiting, 0;
    }

    /** LEDGER_PROTOCOL_init: whatever the fields were, the receiver now waits for a first chunk. */
    method Initialise()
      requires chunk.Length == CHUNK_SIZE && chunk != rxBuffer && rxMaxLength <= rxBuffer.Length
      modifies this`rxStatus, this`rxSeqNo
      ensures Receiving() && AsReceiver() == old(AsReceiver()).(status := Waiting, seqNo := 0)
    {
      rxStatus := Waiting;
      rxSeqNo := 0;
    }

    ghost function AsReceiver(): Receiver
      reads this`rxStatus, this`rxSeqNo, this`rxLength, this`rxOffset, rxBuffer
    {
      Receiver(rxStatus, rxSeqNo, rxLength, rxOffset, rxMaxLength, rxBuffer[..])
    }

    ghost predicate Receiving()
      reads this`rxStatus, this`rxSeqNo, this`rxLength, this`rxOffset, rxBuffer
    {
      chunk.Length == CHUNK_SIZE && chunk != rxBuffer && Consistent(AsReceiver())
    }

    /** LEDGER_PROTOCOL_rx */
    method Rx(buffer: array?<byte>, length: uint16)
      requires Receiving()
      requires buffer != null ==> length <= buffer.Length && buffer != chunk && buffer != rxBuffer
      modifies this`rxStatus, this`rxSeqNo, this`rxLength, this`rxOffset, this`chunkLength, chunk, rxBuffer
      ensures Receiving()
      ensures buffer == null || length < 3 ==>
                AsReceiver() == old(AsReceiver()) && chunk[..] == old(chunk[..]) && chunkLength == old(chunkLength)
      ensures buffer != null && length >= 3 ==>
                && AsReceiver() == old(Receive(AsReceiver(), buffer[..length]))
                && chunk[..] == old(Answer(buffer[..length], mtu))
                && chunkLength == old(AnswerLength(buffer[..length], chunkLength))
    {
      hide Receive, Answer, AnswerLength, Consistent, ProcessChunk;
      if buffer == null || length < 3 {
        return;
      }
      ghost var c := buffer[..length];
      Received(AsReceiver(), c);
      NoAnswer(c, mtu, chunkLength);
      CopyChannel(buffer);
      assert chunk[..] == c[..2] + Fill(CHUNK_SIZE - 2);
      if buffer[2] == 0x00 {
        AnswerVersion(c);
      } else if buffer[2] == 0x01 {
        AnswerChannel(c);
      } else if buffer[2] == 0x02 {
        AnswerPing(buffer, length);
      } else if buffer[2] == TAG_APDU {
        assert buffer[..][3..length] == c[3..];
        ProcessApduChunk(buffer, 3, length - 3);
      } else if buffer[2] == 0x08 {
        AnswerMtu(c);
      }
    }

    /** The chunk buffer is cleared but for the channel. */
    method CopyChannel(buffer: array<byte>)
      requires chunk.Length == CHUNK_SIZE && buffer.Length >= 2 && buffer != chunk
      modifies chunk
      ensures chunk[..] == buffer[..2] + Fill(CHUNK_SIZE - 2)
    {
      forall i | 0 <= i < CHUNK_SIZE { chunk[i] := 0; }
      chunk[0], chunk[1] := buffer[0], buffer[1];
    }

    /** The chunk buffer holds the channel of chunk c, and nothing else. */
    ghost predicate Cleared(c: seq<byte>)
      reads chunk
    {
      chunk.Length == CHUNK_SIZE && |c| >= 3 && chunk[..] == c[..2] + Fill(CHUNK_SIZE - 2)
    }

    /** TAG_GET_PROTOCOL_VERSION; the version and the tag are zero. */
    method AnswerVersion(ghost c: seq<byte>)
      requires Cleared(c) && c[2] == 0x00
      modifies this`chunkLength, chunk
      ensures chunk[..] == Answer(c, mtu) && chunkLength == AnswerLength(c, old(chunkLength))
    {
      chunk[2] := 0x00;
      chunkLength := 4;
      forall i | 0 <= i < 4 { chunk[3 + i] := 0; }
      chunkLength := chunkLength + 3;
    }

    /** TAG_ALLOCATE_CHANNEL */
    method AnswerChannel(ghost c: seq<byte>)
      requires Cleared(c) && c[2] == 0x01
      modifies this`chunkLength, chunk
      ensures chunk[..] == Answer(c, mtu) && chunkLength == AnswerLength(c, old(chunkLength))
    {
      chunk[2] := 0x01;
      chunkLength := 3;
    }

    /** TAG_PING: as much as fits is sent back. */
    method AnswerPing(buffer: array<byte>, length: uint16)
      requires length <= buffer.Length && buffer != chunk && Cleared(buffer[..length]) && buffer[2] == 0x02
      modifies this`chunkLength, chunk
      ensures chunk[..] == Answer(buffer[..length], mtu)
      ensures chunkLength == AnswerLength(buffer[..length], old(chunkLength))
    {
      chunkLength := Min(CHUNK_SIZE, length);
      forall i | 0 <= i < chunkLength { chunk[i] := buffer[i]; }
    }

    /** TAG_MTU */
    method AnswerMtu(ghost c: seq<byte>)
      requires Cleared(c) && c[2] == 0x08
      modifies this`chunkLength, chunk
      ensures chunk[..] == Answer(c, mtu) && chunkLength == AnswerLength(c, old(chunkLength))
    {
      MtuAnswer(c, mtu, chunkLength);
      hide Lo, Answer, AnswerLength;
      chunk[2], chunk[3], chunk[4], chunk[5], chunk[6], chunk[7] := 0x08, 0x00, 0x00, 0x00, 0x01, Lo(mtu);
      chunkLength := 8;
    }

    /** process_apdu_chunk, for the length bytes of the buffer behind start. */
    method ProcessApduChunk(buffer: array<byte>, start: nat, length: uint16)
      requires Receiving() && start + length <= buffer.Length && buffer != rxBuffer
      modifies this`rxStatus, this`rxSeqNo, this`rxLength, this`rxOffset, rxBuffer
      ensures AsReceiver() == old(ProcessChunk(AsReceiver(), buffer[..][start..start + length]))
    {
      hide *;
      var taken, from, n := ReadHeader(buffer, start, length);
      if taken {
        StoreData(buffer, from, n);
      }
    }

    /** The sequence number and, in a first chunk, the length. What is left is to be stored, if anything is. */
    method ReadHeader(buffer: array<byte>, start: nat, length0: uint16)
      returns (taken: bool, from: nat, length: uint16)
      requires Receiving() && start + length0 <= buffer.Length && buffer != rxBuffer
      modifies this`rxStatus, this`rxLength, this`rxOffset
      ensures taken ==> from + length <= buffer.Length && rxOffset <= rxLength <= rxMaxLength <= rxBuffer.Length
      ensures old(ProcessChunk(AsReceiver(), buffer[..][start..start + length0])) ==
                if taken then Store(AsReceiver(), buffer[..][from..from + length]) else AsReceiver()
    {
      from, length := start, length0;
      ghost var r, c := AsReceiver(), buffer[..][start..start + length0];
      Fields(buffer[..], start, length0);
      hide U2BE, Store;
      taken := length >= 2 && U2BE(buffer[..], start) == rxSeqNo && (rxSeqNo == 0 ==> length >= 4);
      if !taken {
        rxStatus := Waiting;
      } else if rxSeqNo != 0 {
        from, length := start + 2, length - 2;
      } else {
        rxStatus := NeedMoreData;
        rxLength := U2BE(buffer[..], start + 2);
        if rxLength > rxMaxLength {
          rxStatus := Waiting;
          taken := false;
        } else {
          rxOffset := 0;
          from, length := start + 4, length - 4;
          assert AsReceiver() == Announced(r, c);
        }
      }
    }

    /** What both kinds of chunks end with. */
    method StoreData(buffer: array<byte>, from: nat, length0: uint16)
      requires from + length0 <= buffer.Length && buffer != rxBuffer
      requires rxOffset <= rxLength <= rxMaxLength <= rxBuffer.Length
      modifies this`rxStatus, this`rxSeqNo, this`rxOffset, rxBuffer
      ensures AsReceiver() == old(Store(AsReceiver(), buffer[..][from..from + length0]))
    {
      var n := if rxOffset + length0 > rxLength then rxLength - rxOffset else length0;
      ghost var r, data := AsReceiver(), buffer[..][from..from + length0];
      CopyData(buffer, from, n);
      assert data[..n] == buffer[..][from..from + n];
      ghost var r' := Store(r, data);
      assert r'.mem == rxBuffer[..] && r'.offset == rxOffset + n;
      hide Store;
      rxOffset := rxOffset + n;
      if rxOffset == rxLength {
        rxSeqNo := 0;
        rxStatus := Complete;
      } else {
        rxSeqNo := U16(rxSeqNo + 1);
        rxStatus := NeedMoreData;
      }
      assert rxBuffer[..] == r'.mem;
    }

    method CopyData(buffer: array<byte>, from: nat, n: nat)
      requires from + n <= buffer.Length && buffer != rxBuffer && rxOffset + n <= rxBuffer.Length
      modifies rxBuffer
      ensures rxBuffer[..] == old(rxBuffer[..])[..rxOffset] + buffer[..][from..from + n] +
                              old(rxBuffer[..])[rxOffset + n..]
    {
      forall i | 0 <= i < n {
        rxBuffer[rxOffset + i] := buffer[from + i];
      }
    }

    // ---------------------------------------------------------------- sending

    ghost predicate Transmitting()
      reads this
    {
      && chunk.Length == CHUNK_SIZE && chunk != rxBuffer && MIN_MTU <= mtu <= CHUNK_SIZE
      && (txBuffer != null ==> txBuffer != chunk && txOffset <= txLength <= txBuffer.Length)
    }

    ghost function AsSender(): Sender
      requires Transmitting()
      reads this, txBuffer
    {
      Sender(txBuffer != null, txSeqNo, txOffset, if txBuffer == null then [] else txBuffer[..txLength])
    }

    /** The sender that the next call works on: a new APDU, or the one under way. */
    ghost function Current(buffer: array?<byte>, length: uint16): Sender
      requires Transmitting() && (buffer != null ==> length <= buffer.Length)
      reads this, txBuffer, buffer
    {
      if buffer == null then AsSender() else Start(buffer[..length])
    }

    /** LEDGER_PROTOCOL_tx */
    method Tx(buffer: array?<byte>, length: uint16)
      requires Transmitting() && (buffer != null ==> length <= buffer.Length && buffer != chunk)
      modifies this`txBuffer, this`txLength, this`txSeqNo, this`txOffset, this`chunkLength, chunk
      ensures Transmitting()
      ensures old(!Current(buffer, length).pending) ==>
                AsSender() == old(AsSender()) && chunk[..] == old(chunk[..]) && chunkLength == old(chunkLength)
      ensures old(Current(buffer, length).pending) ==>
                var s := old(Current(buffer, length));
                && chunkLength <= mtu && chunk[..chunkLength] == NextChunk(s, old(chunk[..2]), mtu)
                && AsSender().(data := s.data) == Advance(s, mtu)
                && (AsSender().pending ==> AsSender().data == s.data)
    {
      if buffer == null && txBuffer == null {
        return;
      }
      if buffer != null {
        txBuffer, txLength, txSeqNo, txOffset := buffer, length, 0, 0;
      }
      SendChunk();
    }

    /** The next chunk of the APDU under way. */
    method SendChunk()
      requires Transmitting() && txBuffer != null
      modifies this`txBuffer, this`txSeqNo, this`txOffset, this`chunkLength, chunk
      ensures Transmitting() && (txBuffer == null || txBuffer == old(txBuffer))
      ensures chunkLength <= mtu && chunk[..chunkLength] == NextChunk(old(AsSender()), old(chunk[..2]), mtu)
      ensures AsSender().(data := old(AsSender().data)) == Advance(old(AsSender()), mtu)
    {
      ghost var s := AsSender();
      var offset := WriteHeader();
      hide NextChunk, Hi, Lo;
      var full := txLength + offset >= mtu + txOffset;
      var n := if full then mtu - offset else txLength - txOffset;
      CopyPayload(offset, n);
      ChunkIs(s, old(chunk[..2]), mtu, chunk[..offset], chunk[..offset + n]);
      if full {
        txOffset := txOffset + n;
        txSeqNo := U16(txSeqNo + 1);
        chunkLength := mtu;
      } else {
        txOffset := txLength;
        txBuffer := null;
        chunkLength := offset + n;
      }
    }

    method CopyPayload(offset: nat, n: nat)
      requires Transmitting() && txBuffer != null && offset + n <= CHUNK_SIZE && txOffset + n <= txLength
      modifies chunk
      ensures chunk[..offset] == old(chunk[..offset])
      ensures chunk[..offset + n] == chunk[..offset] + txBuffer[..txLength][txOffset..txOffset + n]
    {
      forall i | 0 <= i < n { chunk[offset + i] := txBuffer[txOffset + i]; }
    }

    /** The tag, the sequence number and, in the first chunk, the length, behind the channel. */
    method WriteHeader() returns (offset: nat)
      requires Transmitting() && txBuffer != null
      modifies chunk
      ensures offset == HeaderLength(AsSender())
      ensures chunk[..offset] == old(chunk[..2]) + [TAG_APDU, Hi(txSeqNo), Lo(txSeqNo)] +
                                 if txSeqNo == 0 then [Hi(txLength), Lo(txLength)] else []
    {
      hide Hi, Lo;
      chunk[2] := TAG_APDU;
      chunk[3], chunk[4] := Hi(txSeqNo), Lo(txSeqNo);
      offset := 5;
      if txSeqNo == 0 {
        chunk[5], chunk[6] := Hi(txLength), Lo(txLength);
        offset := 7;
      }
    }

    // ---------------------------------------------------------------- whole transmissions

    /** The APDU under way, if any, can be sent to its end; behind the first chunk, something of it has been sent. */
    ghost predicate InTransmission(channel: seq<byte>)
      reads this, chunk, txBuffer
    {
      && Transmitting() && chunk[..2] == channel
      && (txBuffer != null ==> Sending(AsSender(), mtu) && txSeqNo > 0)
    }

    /** The chunks that are still to be sent. */
    ghost function ToSend(channel: seq<byte>): seq<seq<byte>>
      requires InTransmission(channel)
      reads this, chunk, txBuffer
    {
      if txBuffer == null then [] else Chunks(AsSender(), channel, mtu)
    }

    /** LEDGER_PROTOCOL_tx for an APDU, and without one until the buffer pointer is NULL: the chunks that are sent. */
    method Transmit(buffer: array<byte>, length: uint16) returns (cs: seq<seq<byte>>)
      requires Transmitting() && length <= buffer.Length && buffer != chunk
      modifies this`txBuffer, this`txLength, this`txSeqNo, this`txOffset, this`chunkLength, chunk
      ensures Transmitting() && txBuffer == null && chunk[..2] == old(chunk[..2])
      ensures cs == Chunks(Start(buffer[..length]), old(chunk[..2]), mtu)
    {
      ghost var s, channel := Start(buffer[..length]), chunk[..2];
      ghost var all := Chunks(s, channel, mtu);
      hide Chunks, Advance, NextChunk;
      var c := SendNext(buffer, length, s, channel);
      cs := [c];
      while txBuffer != null
        invariant InTransmission(channel) && cs + ToSend(channel) == all
        decreases if txBuffer == null then 0 else 1 + txLength - txOffset
      {
        c := SendNext(null, 0, AsSender(), channel);
        cs := cs + [c];
      }
    }

    /** One call of LEDGER_PROTOCOL_tx, for a new APDU or the one under way. */
    method SendNext(buffer: array?<byte>, length: uint16, ghost s: Sender, ghost channel: seq<byte>)
      returns (c: seq<byte>)
      requires Transmitting() && (buffer != null ==> length <= buffer.Length && buffer != chunk)
      requires s == Current(buffer, length) && Sending(s, mtu) && chunk[..2] == channel
      modifies this`txBuffer, this`txLength, this`txSeqNo, this`txOffset, this`chunkLength, chunk
      ensures InTransmission(channel) && [c] + ToSend(channel) == Chunks(s, channel, mtu)
      ensures txBuffer != null ==> txLength == |s.data| && (s.seqNo > 0 ==> txOffset > s.offset)
    {
      hide Chunks, Advance, NextChunk;
      Tx(buffer, length);
      AfterChunk(s, AsSender(), channel, mtu);
      c := chunk[..chunkLength];
      ChannelKept(s, channel, mtu);
      assert chunk[..2] == c[..2];
    }
  }
}
