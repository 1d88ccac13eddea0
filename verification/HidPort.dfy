/** The HID transport in place (src/os_io_usb.c): the global variables, the endpoint buffer and the APDU buffer. */
module HidPorts {
  import opened CTypes
  import opened HidTransport

  /** The answer to a packet that is not part of an APDU: the protocol version, a random channel or an echo. */
  function Reply(ep: Packet, random: seq<byte>): seq<seq<byte>>
    requires |random| == 4
  {
    if ep[2] == 0x00 then [ep[..3] + Fill(4) + ep[7..]]
    else if ep[2] == 0x01 then [ep[..3] + random + ep[7..]]
    else if ep[2] == 0x02 then [ep]
    else []
  }

  /** The answers byte by byte: version 0, the random channel, or the packet itself. */
  lemma ReplyBytes(ep: Packet, random: seq<byte>)
    requires |random| == 4
    ensures ep[2] != 0 && ep[2] != 1 && ep[2] != 2 ==> Reply(ep, random) == []
    ensures ep[2] == 0 || ep[2] == 1 || ep[2] == 2 ==>
              var replies := Reply(ep, random);
              && |replies| == 1 && |replies[0]| == 64
              && (forall i :: 0 <= i < 64 ==>
                    replies[0][i] ==
                      if 3 <= i < 7 && ep[2] == 0 then 0 else if 3 <= i < 7 && ep[2] == 1 then random[i - 3] else ep[i])
  {
  }

  class HidPort {
    // G_io_usb_hid_*; the current buffer pointer is an array (or NULL) and a position in it
    var totalLength: nat
    var channel: nat
    var remainingLength: nat
    var sequenceNumber: nat
    var current: array?<byte>
    var position: nat
    // G_io_usb_ep_buffer
    const ep: array<byte>
    // what sndfct has been given, and whether the APDU state is idle
    var sent: seq<seq<byte>>
    var idle: bool

    constructor ()
      ensures ep.Length == EP_LENGTH && fresh(ep) && current == null && sequenceNumber == remainingLength == 0
    {
      totalLength, channel, remainingLength, sequenceNumber := 0, 0, 0, 0;
      current, position, sent, idle := null, 0, [], true;
      ep := new byte[EP_LENGTH](_ => 0);
    }

    ghost function At(): Option<nat>
      reads this
    {
      if current == null then None else Some(position)
    }

    /** The port as a receiver into the given APDU buffer. */
    ghost function AsReceiver(apdu: array<byte>): Receiver
      reads this, apdu
    {
      Receiver(sequenceNumber, totalLength, channel, remainingLength, At(), apdu[..])
    }

    ghost predicate Receiving(apdu: array<byte>)
      reads this, apdu
    {
      && ep.Length == EP_LENGTH && apdu != ep && (current == null || current == apdu)
      && Consistent(AsReceiver(apdu))
    }

    /** The endpoint buffer once a packet of l bytes is in it; the packet may have come there directly. */
    ghost function InEndpoint(buffer: array<byte>, l: uint16): (p: Packet)
      requires ep.Length == EP_LENGTH && (buffer == ep || Min(l, EP_LENGTH) <= buffer.Length)
      reads buffer
      ensures buffer == ep ==> p == buffer[..]
      ensures buffer != ep ==> forall i :: 0 <= i < 64 ==> p[i] == if i < l then buffer[i] else 0
    {
      if buffer == ep then buffer[..]
      else buffer[..Min(l, EP_LENGTH)] + Fill(EP_LENGTH - Min(l, EP_LENGTH))
    }

    /** io_usb_hid_init */
    method Initialise()
      modifies this
      ensures sequenceNumber == 0 && remainingLength == 0 && current == null
      ensures totalLength == old(totalLength) && channel == old(channel)
      ensures position == old(position) && sent == old(sent) && idle == old(idle)
    {
      sequenceNumber := 0;
      remainingLength := 0;
      current := null;
    }

    method FillEndpoint(buffer: array<byte>, l: uint16)
      requires ep.Length == EP_LENGTH && (buffer == ep || Min(l, EP_LENGTH) <= buffer.Length)
      modifies ep
      ensures ep[..] == old(InEndpoint(buffer, l))
    {
      if buffer != ep {
        forall i | 0 <= i < EP_LENGTH {
          ep[i] := 0;
        }
        forall i | 0 <= i < Min(l, EP_LENGTH) {
          ep[i] := buffer[i];
        }
      }
    }

    /** io_usb_hid_receive; random stands for the bytes that the random generator would give. */
    method Accept(buffer: array<byte>, l: uint16, apdu: array<byte>, random: seq<byte>) returns (status: Status)
      requires Receiving(apdu) && |random| == 4
      requires buffer == ep || Min(l, EP_LENGTH) <= buffer.Length
      modifies this, ep, apdu
      ensures Receiving(apdu)
      ensures (AsReceiver(apdu), status) == old(Receive(AsReceiver(apdu), InEndpoint(buffer, l), l))
      ensures sent == old(sent) + old(Reply(InEndpoint(buffer, l), random))
    {
      ghost var r, packet := AsReceiver(apdu), InEndpoint(buffer, l);
      ReceiveKeepsConsistent(r, packet, l);
      FillEndpoint(buffer, l);
      assert apdu[..] == r.mem;
      if ep[2] == 0x05 {
        status := AcceptChunk(l, apdu);
        return;
      } else if ep[2] == 0x00 {
        forall i | 3 <= i < 7 { ep[i] := 0; }
        assert ep[..] == packet[..3] + Fill(4) + packet[7..];
        sent := sent + [ep[..]];
      } else if ep[2] == 0x01 {
        forall i | 3 <= i < 7 { ep[i] := random[i - 3]; }
        assert ep[..] == packet[..3] + random + packet[7..];
        sent := sent + [ep[..]];
      } else if ep[2] == 0x02 {
        sent := sent + [ep[..]];
      } else if remainingLength > 0 {
        return MoreData;
      } else {
        Initialise();
        return Received;
      }
      Initialise();
      assert apdu[..] == r.mem;
      status := Reset;
    }

    /** The APDU packets of io_usb_hid_receive. */
    method AcceptChunk(l0: uint16, apdu: array<byte>) returns (status: Status)
      requires Receiving(apdu) && ep[2] == 0x05
      modifies this, apdu
      ensures (AsReceiver(apdu), status) == old(Receive(AsReceiver(apdu), ep[..], l0))
      ensures (current == null || current == apdu) && sent == old(sent)
    {
      hide Finish, Append;
      var l: uint16 := U16(l0 - 5);
      if U2BE(ep[..], 3) != sequenceNumber {
        Initialise();
        status := Reset;
      } else if sequenceNumber != 0 {
        status := StoreChunk(l, 5, apdu);
      } else {
        totalLength := U2BE(ep[..], 5);
        if totalLength > apdu.Length {
          Initialise();
          status := Reset;
        } else {
          l := U16(l - 2);
          remainingLength := totalLength;
          current, position := apdu, 0;
          channel := U2BE(ep[..], 0);
          status := StoreChunk(l, 7, apdu);
        }
      }
    }

    /** What both kinds of APDU packets end with: at most what remains, and at most what the endpoint buffer
        holds, goes to the current position. */
    method StoreChunk(l0: uint16, header: nat, apdu: array<byte>) returns (status: Status)
      requires ep.Length == EP_LENGTH && header <= EP_LENGTH && apdu != ep && current == apdu
      requires position + remainingLength <= apdu.Length
      modifies this, apdu
      ensures (AsReceiver(apdu), status)
           == old(Finish(Append(AsReceiver(apdu), Take(ep[..], header, l0, remainingLength))))
      ensures (current == null || current == apdu) && sent == old(sent)
    {
      var l := Min(Min(l0, remainingLength), EP_LENGTH - header);
      forall i | 0 <= i < l {
        apdu[position + i] := ep[header + i];
      }
      assert apdu[..] == old(apdu[..position] + ep[header..header + l] + apdu[position + l..]);
      position := position + l;
      remainingLength := remainingLength - l;
      sequenceNumber := sequenceNumber + 1;
      if remainingLength > 0 {
        return MoreData;
      }
      Initialise();
      status := Received;
    }

    // ---------------------------------------------------------------- sending

    ghost predicate Sending()
      reads this
    {
      && ep.Length == EP_LENGTH && current != ep
      && (current != null ==> position + remainingLength <= current.Length)
    }

    /** The port as a sender; the APDU ends where the remaining length ends. */
    ghost function AsSender(): Sender
      requires Sending()
      reads this, current
    {
      Sender(sequenceNumber, channel, remainingLength, At(),
             if current == null then [] else current[..position + remainingLength])
    }

    /** The header of the next packet, and zeros behind it. */
    method WriteHeader()
      requires ep.Length == EP_LENGTH
      modifies ep
      ensures ep[0] == channel / 256 % 256 && ep[1] == channel % 256 && ep[2] == 0x05
      ensures ep[3] == sequenceNumber / 256 % 256 && ep[4] == sequenceNumber % 256
      ensures sequenceNumber == 0 ==> ep[5] == remainingLength / 256 % 256 && ep[6] == remainingLength % 256
      ensures forall k :: (if sequenceNumber == 0 then 7 else 5) <= k < EP_LENGTH ==> ep[k] == 0
    {
      BytesOf(channel);
      BytesOf(sequenceNumber);
      BytesOf(remainingLength);
      hide Hi, Lo;
      forall i | 0 <= i < EP_LENGTH { ep[i] := 0; }
      ep[0], ep[1], ep[2] := Hi(channel), Lo(channel), 0x05;
      ep[3], ep[4] := Hi(sequenceNumber), Lo(sequenceNumber);
      if sequenceNumber == 0 {
        ep[5], ep[6] := Hi(remainingLength), Lo(remainingLength);
      }
    }

    method PreparePacket()
      requires Sending() && remainingLength > 0 && current != null
      modifies ep
      ensures ep[..] == NextPacket(AsSender())
    {
      ghost var s := AsSender();
      hide NextPacket;
      WriteHeader();
      var header := if sequenceNumber == 0 then 7 else 5;
      var l := Min(remainingLength, EP_LENGTH - header);
      forall i | 0 <= i < l { ep[header + i] := current[position + i]; }
      forall k | 0 <= k < EP_LENGTH ensures ep[k] == NextPacket(s)[k] {
        PacketBytes(s, k);
        if header <= k < header + l { assert ep[header + (k - header)] == current[position + (k - header)]; }
      }
    }

    /** io_usb_hid_sent: the next packet, or the end of the transmission. */
    method Sent()
      requires Sending()
      modifies this, ep
      ensures Sending()
      ensures old(remainingLength > 0 && current != null) ==>
                && AsSender() == old(Advance(AsSender())) && sent == old(sent + [NextPacket(AsSender())])
                && idle == old(idle) && totalLength == old(totalLength) && current == old(current)
      ensures old(remainingLength == 0 || current == null) ==>
                sequenceNumber == remainingLength == 0 && current == null && sent == old(sent) && idle
    {
      if remainingLength > 0 && current != null {
        PreparePacket();
        hide NextPacket;
        var l := Min(remainingLength, if sequenceNumber == 0 then EP_LENGTH - 7 else EP_LENGTH - 5);
        position := position + l;
        remainingLength := remainingLength - l;
        sequenceNumber := sequenceNumber + 1;
        sent := sent + [ep[..]];
      } else {
        Initialise();
        idle := true;
      }
    }

    /** io_usb_hid_send: the first packet of an APDU; there is none for an empty one. */
    method Send(apdu: array<byte>, length: uint16)
      requires ep.Length == EP_LENGTH && apdu != ep && length <= apdu.Length
      modifies this, ep
      ensures idle == old(idle)
      ensures length == 0 ==>
                && sent == old(sent) && AsReceiver(apdu) == old(AsReceiver(apdu)) && ep[..] == old(ep[..])
                && current == old(current) && position == old(position)
      ensures length > 0 ==>
                var s := Start(old(channel), old(apdu[..length]));
                && Sending() && AsSender() == Advance(s) && sent == old(sent) + [NextPacket(s)]
                && current == apdu && totalLength == length
    {
      if length > 0 {
        sequenceNumber := 0;
        current, position := apdu, 0;
        remainingLength := length;
        totalLength := length;
        Sent();
      }
    }

    ghost predicate InTransmission()
      reads this, current
    {
      && Sending() && current != null
      && AsSender().at.Some? && AsSender().at.value + AsSender().remaining <= |AsSender().data|
    }

    /** What is still to be sent. */
    ghost function ToSend(): seq<Packet>
      requires InTransmission()
      reads this, current
    {
      Packets(AsSender())
    }

    /** A whole transmission: io_usb_hid_send, and io_usb_hid_sent whenever a packet has gone. */
    method Transmit(apdu: array<byte>, length: uint16)
      requires ep.Length == EP_LENGTH && apdu != ep && 0 < length <= apdu.Length
      modifies this, ep
      ensures sent == old(sent) + Packets(Start(old(channel), apdu[..length]))
      ensures idle && current == null && sequenceNumber == remainingLength == 0
    {
      ghost var s, before := Start(channel, apdu[..length]), sent;
      hide *;
      StartInside(channel, apdu[..length]);
      PacketsStep(s);
      AdvanceInside(s);
      Send(apdu, length);
      StillInTransmission();
      assert sent + ToSend() == before + Packets(s);
      while remainingLength > 0
        invariant InTransmission() && sent + ToSend() == before + Packets(s)
        decreases remainingLength
      {
        SendNext();
      }
      NothingLeftToSend();
      Sent();
    }

    lemma StillInTransmission()
      requires Sending() && current != null && AsSender().at.value + AsSender().remaining <= |AsSender().data|
      ensures InTransmission() && ToSend() == Packets(AsSender())
    {
    }

    lemma NothingLeftToSend()
      requires InTransmission() && remainingLength == 0
      ensures ToSend() == [] && Sending()
    {
      NothingToSend(AsSender());
    }

    /** io_usb_hid_sent in the middle of a transmission. */
    method SendNext()
      requires InTransmission() && remainingLength > 0
      modifies this, ep
      ensures InTransmission() && remainingLength < old(remainingLength)
      ensures sent + ToSend() == old(sent + ToSend())
    {
      ghost var s := AsSender();
      PacketsStep(s);
      AdvanceInside(s);
      hide Packets, NextPacket, Advance;
      Sent();
      assert AsSender() == Advance(s);
      StillInTransmission();
      assert old(sent) + ([NextPacket(s)] + Packets(Advance(s))) == old(sent) + [NextPacket(s)] + Packets(Advance(s));
    }
  }
}
