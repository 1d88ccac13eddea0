/** The HID transport (src/os_io_usb.c): an APDU is cut into numbered packets of 64 bytes and put together
    again. This module holds the two state machines as functions; the class HidPort of module
    HidPorts runs them in place. */
module HidTransport {
  import opened CTypes

  /** The size of the endpoint buffer and of every packet. */
  const EP_LENGTH := 64

  datatype Status = Reset | MoreData | Received

  type Packet = p: seq<byte> | |p| == EP_LENGTH witness seq(EP_LENGTH, _ => 0)

  // ------------------------------------------------------------------ receiving

  /** The receiver: `at` is the current buffer pointer as an offset into the APDU buffer, whose contents
      are mem; None is NULL. */
  datatype Receiver = Receiver(seqNo: nat, total: nat, channel: nat, remaining: nat, at: Option<nat>, mem: seq<byte>)

  /** Between packets: either nothing is under way, or some but not all of an APDU has been written. */
  ghost predicate Consistent(r: Receiver) {
    && |r.mem| < 0x1_0000
    && (if r.seqNo == 0 then r.remaining == 0 && r.at == None
        else r.at.Some? && r.remaining > 0 && r.at.value + r.remaining == r.total <= |r.mem|)
  }

  /** io_usb_hid_init */
  function Init(r: Receiver): Receiver {
    r.(seqNo := 0, remaining := 0, at := None)
  }

  /** What is taken from a packet with l bytes behind its header; l may have wrapped around. */
  function Take(ep: Packet, header: nat, l: uint16, remaining: nat): (payload: seq<byte>)
    requires header <= EP_LENGTH
    ensures |payload| == Min(Min(l, remaining), EP_LENGTH - header)
  {
    ep[header..header + Min(Min(l, remaining), EP_LENGTH - header)]
  }

  function Append(r: Receiver, payload: seq<byte>): Receiver
    requires r.at.Some? && r.at.value + |payload| <= |r.mem| && |payload| <= r.remaining
  {
    var at := r.at.value;
    r.(mem := r.mem[..at] + payload + r.mem[at + |payload|..], at := Some(at + |payload|),
       remaining := r.remaining - |payload|, seqNo := r.seqNo + 1)
  }

  function Finish(r: Receiver): (Receiver, Status) {
    if r.remaining > 0 then (r, MoreData) else (Init(r), Received)
  }

  /** The payload of the APDU packet in ep, for the receiver it is meant for. */
  function Payload(r: Receiver, ep: Packet, l: uint16): seq<byte> {
    if r.seqNo == 0 then Take(ep, 7, U16(U16(l - 5) - 2), U2BE(ep, 5))
    else Take(ep, 5, U16(l - 5), r.remaining)
  }

  /** io_usb_hid_receive, for the endpoint buffer's contents ep and a packet of l bytes. */
  function Receive(r: Receiver, ep: Packet, l: uint16): (Receiver, Status)
    requires Consistent(r)
  {
    if ep[2] == 0x05 then
      if U2BE(ep, 3) != r.seqNo then (Init(r), Reset)
      else if r.seqNo == 0 then
        var total := U2BE(ep, 5);
        if total > |r.mem| then (Init(r.(total := total)), Reset)
        else
          Finish(Append(r.(total := total, remaining := total, at := Some(0), channel := U2BE(ep, 0)),
                        Payload(r, ep, l)))
      else Finish(Append(r, Payload(r, ep, l)))
    else if ep[2] in {0x00, 0x01, 0x02} then (Init(r), Reset)  // answered, and any reception is given up
    else Finish(r)
  }

  /** Every packet, whatever its bytes and its length, leaves the receiver consistent. */
  lemma ReceiveKeepsConsistent(r: Receiver, ep: Packet, l: uint16)
    requires Consistent(r)
    ensures Consistent(Receive(r, ep, l).0)
    ensures |Receive(r, ep, l).0.mem| == |r.mem|
  {
  }

  /** When a packet gives a reception up: it is a version, channel or ping packet, or an APDU packet that is not the
      expected one or announces more than there is room for. The buffer is left alone then. */
  lemma ResetIff(r: Receiver, ep: Packet, l: uint16)
    requires Consistent(r)
    ensures var (r', status) := Receive(r, ep, l);
      && (status == Reset <==>
            || ep[2] == 0 || ep[2] == 1 || ep[2] == 2
            || (ep[2] == 5 && ep[3] as int * 256 + ep[4] as int != r.seqNo)
            || (ep[2] == 5 && r.seqNo == 0 && ep[5] as int * 256 + ep[6] as int > |r.mem|))
      && (status == Reset ==>
            && r'.seqNo == 0 && r'.remaining == 0 && r'.at == None && r'.mem == r.mem && r'.channel == r.channel
            && (r'.total == r.total || (ep[2] == 5 && r'.total == ep[5] as int * 256 + ep[6] as int > |r.mem|)))
  {
  }

  /** How many bytes an APDU packet of l bytes brings behind its header, when `left` bytes are expected. A packet that
      is said to be shorter than its header counts as full, since its length wraps around. */
  function Brings(header: nat, l: uint16, left: nat): (n: nat)
    requires header == 5 || header == 7
    ensures n <= left && n <= 64 - header
    ensures header <= l < 64 ==> n <= l - header
    ensures n == left || n == 64 - header || (header <= l && n == l - header)
  {
    var room := if header <= l < 64 then l - header else 64 - header;
    if left < room then left else room
  }

  lemma PayloadIs(r: Receiver, ep: Packet, l: uint16)
    ensures Payload(r, ep, l) ==
      if r.seqNo == 0 then ep[7..7 + Brings(7, l, ep[5] as int * 256 + ep[6] as int)]
      else ep[5..5 + Brings(5, l, r.remaining)]
  {
  }

  /** What an APDU packet does if it does not give the reception up, byte by byte. */
  lemma PacketTaken(r: Receiver, ep: Packet, l: uint16)
    requires Consistent(r) && ep[2] == 5 && Receive(r, ep, l).1 != Reset
    ensures var (r', status) := Receive(r, ep, l);
      var first := r.seqNo == 0;
      var header := if first then 7 else 5;
      var at, left := if first then 0 else r.at.value, if first then ep[5] as int * 256 + ep[6] as int else r.remaining;
      var n := Brings(header, l, left);
      && at + n <= |r.mem| == |r'.mem|
      && (forall i :: 0 <= i < |r.mem| ==> r'.mem[i] == if at <= i < at + n then ep[header + (i - at)] else r.mem[i])
      && r'.channel == (if first then ep[0] as int * 256 + ep[1] as int else r.channel) && r'.total == at + left
      && (if n == left then status == Received && r'.seqNo == 0
          else status == MoreData && r'.seqNo == r.seqNo + 1 && r'.at == Some(at + n) && r'.remaining == left - n)
  {
    PayloadIs(r, ep, l);
    assert U2BE(ep, 5) == ep[5] as int * 256 + ep[6] as int && U2BE(ep, 0) == ep[0] as int * 256 + ep[1] as int;
    var total := U2BE(ep, 5);
    var r0 := if r.seqNo == 0 then r.(total := total, remaining := total, at := Some(0), channel := U2BE(ep, 0)) else r;
    assert Receive(r, ep, l) == Finish(Append(r0, Payload(r, ep, l)));
    hide Receive, Payload, Brings, U2BE, Append, Finish;
    StoredBytes(r0, Payload(r, ep, l));
  }

  lemma StoredBytes(r: Receiver, payload: seq<byte>)
    requires r.at.Some? && r.at.value + |payload| <= |r.mem| && |payload| <= r.remaining
    ensures var (r', status) := Finish(Append(r, payload));
      var at, n := r.at.value, |payload|;
      && |r'.mem| == |r.mem| && r'.channel == r.channel && r'.total == r.total
      && (forall i :: 0 <= i < |r.mem| ==> r'.mem[i] == if at <= i < at + n then payload[i - at] else r.mem[i])
      && (if n == r.remaining then status == Received && r'.seqNo == 0
          else
            && status == MoreData && r'.seqNo == r.seqNo + 1 && r'.at == Some(at + n)
            && r'.remaining == r.remaining - n)
  {
  }

  /** The payloads accepted for the APDU that is under way, after one more packet. */
  function Collect(r: Receiver, sofar: seq<byte>, ep: Packet, l: uint16): seq<byte>
    requires Consistent(r)
  {
    if Receive(r, ep, l).1 == Reset then []
    else if ep[2] != 0x05 then sofar
    else if r.seqNo == 0 then Payload(r, ep, l)
    else sofar + Payload(r, ep, l)
  }

  datatype Event = Event(ep: Packet, l: uint16)

  /** A run of the receiver over any packets: the state, the payloads collected and the answers. */
  function RunReceiver(r: Receiver, events: seq<Event>): (Receiver, seq<byte>, seq<Status>)
    requires Consistent(r) && r.seqNo == 0
    ensures Consistent(RunReceiver(r, events).0)
  {
    if events == [] then (r, [], [])
    else
      var (r1, sofar, answers) := RunReceiver(r, events[..|events| - 1]);
      var e := events[|events| - 1];
      var (r2, status) := Receive(r1, e.ep, e.l);
      ReceiveKeepsConsistent(r1, e.ep, e.l);
      (r2, Collect(r1, sofar, e.ep, e.l), answers + [status])
  }

  /** Over every run, with arbitrary bytes and lengths: while an APDU is under way, what has been written and
      what remains make up its announced length, which fits the buffer, something remains, and the buffer begins
      with the payloads accepted so far; and when an APDU packet completes it, the buffer begins with all of it. */
  lemma {:induction false} RunsAreSafe(r: Receiver, events: seq<Event>)
    requires Consistent(r) && r.seqNo == 0
    ensures var (r', sofar, answers) := RunReceiver(r, events);
      && (r'.seqNo > 0 ==>
            r'.at.Some? && r'.at.value + r'.remaining == r'.total <= |r'.mem| && r'.remaining > 0 &&
            r'.mem[..r'.at.value] == sofar)
      && (events != [] && answers[|answers| - 1] == Received && events[|events| - 1].ep[2] == 0x05 ==>
            r'.total <= |r'.mem| && r'.mem[..r'.total] == sofar)
  {
    if events != [] {
      var init, e := events[..|events| - 1], events[|events| - 1];
      RunsAreSafe(r, init);
      var (r1, sofar, answers) := RunReceiver(r, init);
      var (r2, status) := Receive(r1, e.ep, e.l);
      if e.ep[2] == 0x05 && status != Reset {
        PayloadAppended(r1, sofar, e.ep, e.l);
      }
    }
  }

  lemma PayloadAppended(r: Receiver, sofar: seq<byte>, ep: Packet, l: uint16)
    requires Consistent(r) && (r.seqNo > 0 ==> r.mem[..r.at.value] == sofar)
    requires ep[2] == 0x05 && Receive(r, ep, l).1 != Reset
    ensures var (r', status) := Receive(r, ep, l);
      var all := Collect(r, sofar, ep, l);
      && |all| <= |r'.mem| && r'.mem[..|all|] == all
      && (status == MoreData ==> r'.at == Some(|all|))
      && (status == Received ==> r'.total == |all|)
  {
  }

  // ------------------------------------------------------------------ sending

  /** The sender, which uses the same variables; data is the APDU that the buffer pointer runs through. */
  datatype Sender = Sender(seqNo: nat, channel: nat, remaining: nat, at: Option<nat>, data: seq<byte>)

  function ChunkLength(s: Sender): nat {
    Min(s.remaining, if s.seqNo == 0 then EP_LENGTH - 7 else EP_LENGTH - 5)
  }

  /** The next packet: channel, tag, sequence number, in the first packet the total length, data, filler. */
  function NextPacket(s: Sender): (p: seq<byte>)
    requires s.at.Some? && s.at.value + s.remaining <= |s.data|
    ensures |p| == EP_LENGTH
  {
    var header := [Hi(s.channel), Lo(s.channel), 0x05, Hi(s.seqNo), Lo(s.seqNo)] +
                  if s.seqNo == 0 then [Hi(s.remaining), Lo(s.remaining)] else [];
    var body := header + s.data[s.at.value..s.at.value + ChunkLength(s)];
    body + Fill(EP_LENGTH - |body|)
  }

  /** A packet byte by byte. */
  lemma PacketBytes(s: Sender, k: nat)
    requires s.at.Some? && s.at.value + s.remaining <= |s.data| && k < EP_LENGTH
    ensures |NextPacket(s)| == 64
    ensures var header := if s.seqNo == 0 then 7 else 5;
      var n := if s.remaining < 64 - header then s.remaining else 64 - header;
      NextPacket(s)[k] ==
        if k == 0 then s.channel / 256 % 256 else if k == 1 then s.channel % 256 else if k == 2 then 5
        else if k == 3 then s.seqNo / 256 % 256 else if k == 4 then s.seqNo % 256
        else if k < header then (if k == 5 then s.remaining / 256 % 256 else s.remaining % 256)
        else if k < header + n then s.data[s.at.value + k - header] else 0
  {
  }

  /** io_usb_hid_sent while something remains to be sent. */
  function Advance(s: Sender): Sender
    requires s.at.Some?
  {
    s.(seqNo := s.seqNo + 1, at := Some(s.at.value + ChunkLength(s)), remaining := s.remaining - ChunkLength(s))
  }

  /** io_usb_hid_send */
  function Start(channel: nat, apdu: seq<byte>): Sender {
    Sender(0, channel, |apdu|, Some(0), apdu)
  }

  /** The packets that io_usb_hid_sent produces until nothing remains. */
  function Packets(s: Sender): (ps: seq<Packet>)
    requires s.at.Some? && s.at.value + s.remaining <= |s.data|
    ensures s.remaining > 0 ==> ps != []
    decreases s.remaining
  {
    if s.remaining == 0 then [] else [NextPacket(s)] + Packets(Advance(s))
  }

  lemma PacketsStep(s: Sender)
    requires s.at.Some? && s.at.value + s.remaining <= |s.data| && s.remaining > 0
    ensures var ps := Packets(s);
      && ps != [] && ps[0] == NextPacket(s) && ps[1..] == Packets(Advance(s)) && ps == [ps[0]] + ps[1..]
      && NextPacket(s)[2] == 0x05
  {
    PacketBytes(s, 2);
  }

  lemma AdvanceInside(s: Sender)
    requires s.at.Some? && s.at.value + s.remaining <= |s.data|
    ensures var s1 := Advance(s);
      && s1.at.Some? && s1.at.value + s1.remaining == s.at.value + s.remaining && s1.data == s.data
      && (s.remaining > 0 ==> s1.remaining < s.remaining)
  {
  }

  lemma OneLess(left: nat)
    requires left > 0
    ensures (left + 58) / 59 == 1 + ((if left < 59 then 0 else left - 59) + 58) / 59
  {
  }

  lemma {:induction false} LaterPackets(s: Sender)
    requires s.seqNo > 0 && s.at.Some? && s.at.value + s.remaining <= |s.data|
    ensures |Packets(s)| == (s.remaining + 58) / 59
    decreases s.remaining
  {
    if s.remaining > 0 {
      PacketsStep(s);
      AdvanceInside(s);
      LaterPackets(Advance(s));
      OneLess(s.remaining);
    }
  }

  /** How many packets an APDU takes: 57 bytes go into the first one and 59 into each of the others. */
  lemma PacketCount(channel: nat, apdu: seq<byte>)
    requires apdu != []
    ensures |Packets(Start(channel, apdu))| == if |apdu| <= 57 then 1 else 1 + (|apdu| - 57 + 58) / 59
  {
    var s := Start(channel, apdu);
    PacketsStep(s);
    AdvanceInside(s);
    LaterPackets(Advance(s));
  }

  lemma StartInside(channel: nat, apdu: seq<byte>)
    ensures var s := Start(channel, apdu);
      s.at == Some(0) && s.remaining == |apdu| && s.data == apdu
  {
  }

  lemma NothingToSend(s: Sender)
    requires s.remaining == 0 && s.at.Some? && s.at.value <= |s.data|
    ensures Packets(s) == []
  {
  }

  // ------------------------------------------------------------------ reassembly

  /** The receiver over a sequence of full packets: the state and the answers. */
  function Feed(r: Receiver, ps: seq<Packet>): (Receiver, seq<Status>)
    requires Consistent(r)
    decreases |ps|
  {
    if ps == [] then (r, [])
    else
      var (r1, status) := Receive(r, ps[0], EP_LENGTH);
      ReceiveKeepsConsistent(r, ps[0], EP_LENGTH);
      var (r2, answers) := Feed(r1, ps[1..]);
      (r2, [status] + answers)
  }

  /** More data, until the last of n packets completes the APDU. */
  function Answers(n: nat): seq<Status>
    requires n > 0
  {
    seq(n, i => if i < n - 1 then MoreData else Received)
  }

  /** Behind the first packet: the two sides have got equally far through the same APDU, and the sequence
      number counts full packets. */
  ghost predicate InStep(s: Sender, r: Receiver) {
    && Consistent(r) && s.seqNo == r.seqNo > 0 && s.at == r.at && s.remaining == r.remaining
    && |s.data| == r.total < 0x1_0000 && r.channel == s.channel
    && r.at.value == 57 + 59 * (r.seqNo - 1) && r.mem[..r.at.value] == s.data[..r.at.value]
  }

  /** The receiver with the APDU in its buffer and everything reset for the next one. */
  function Delivered(r: Receiver, channel: nat, apdu: seq<byte>): Receiver
    requires |apdu| <= |r.mem|
  {
    Receiver(0, |apdu|, channel, 0, None, apdu + r.mem[|apdu|..])
  }

  lemma FirstPacket(channel: uint16, apdu: seq<byte>, r: Receiver)
    requires Consistent(r) && r.seqNo == 0 && 0 < |apdu| <= |r.mem|
    ensures var s := Start(channel, apdu);
      var (r', status) := Receive(r, NextPacket(s), EP_LENGTH);
      if Advance(s).remaining == 0 then status == Received && r' == Delivered(r, channel, apdu)
      else status == MoreData && InStep(Advance(s), r') && r'.mem[|apdu|..] == r.mem[|apdu|..]
           && |r'.mem| == |r.mem|
  {
    hide *;
    Started(channel, apdu, r);
    FirstPacketLayout(channel, apdu);
    FirstPacketStored(channel, apdu, r, NextPacket(Start(channel, apdu)));
    FirstPayloadStored(channel, apdu, r);
  }

  /** The receiver behind the data of the first packet. */
  function WithFirstPayload(r: Receiver, channel: uint16, apdu: seq<byte>): Receiver
    requires |apdu| <= |r.mem|
  {
    Append(r.(total := |apdu|, remaining := |apdu|, at := Some(0), channel := channel),
           apdu[..Min(|apdu|, EP_LENGTH - 7)])
  }

  lemma FirstPayloadStored(channel: uint16, apdu: seq<byte>, r: Receiver)
    requires Consistent(r) && r.seqNo == 0 && 0 < |apdu| <= |r.mem|
    ensures var s := Start(channel, apdu);
      var (r', status) := Finish(WithFirstPayload(r, channel, apdu));
      if Advance(s).remaining == 0 then status == Received && r' == Delivered(r, channel, apdu)
      else status == MoreData && InStep(Advance(s), r') && r'.mem[|apdu|..] == r.mem[|apdu|..]
           && |r'.mem| == |r.mem|
  {
    var n := Min(|apdu|, EP_LENGTH - 7);
    assert r.mem[..0] + apdu[..n] + r.mem[0 + n..] == apdu[..n] + r.mem[n..];
    if n == |apdu| { assert apdu[..n] == apdu; }
  }

  lemma Started(channel: uint16, apdu: seq<byte>, r: Receiver)
    requires Consistent(r)
    ensures |r.mem| < 0x1_0000 && Start(channel, apdu) == Sender(0, channel, |apdu|, Some(0), apdu)
  {
  }

  /** What the first packet of an APDU does. */
  lemma FirstPacketStored(channel: uint16, apdu: seq<byte>, r: Receiver, p: Packet)
    requires Consistent(r) && r.seqNo == 0 && 0 < |apdu| <= |r.mem|
    requires p[2] == 0x05 && U2BE(p, 3) == 0 && U2BE(p, 5) == |apdu| && U2BE(p, 0) == channel
    requires var n := Min(|apdu|, EP_LENGTH - 7); p[7..7 + n] == apdu[..n]
    ensures Receive(r, p, EP_LENGTH) == Finish(WithFirstPayload(r, channel, apdu))
  {
    hide U2BE, Finish;
    assert Payload(r, p, EP_LENGTH) == apdu[..Min(|apdu|, EP_LENGTH - 7)];
  }

  lemma FirstPacketLayout(channel: uint16, apdu: seq<byte>)
    requires 0 < |apdu| < 0x1_0000
    ensures var p := NextPacket(Start(channel, apdu));
      var n := Min(|apdu|, EP_LENGTH - 7);
      && p[2] == 0x05 && U2BE(p, 3) == 0 && U2BE(p, 5) == |apdu| && U2BE(p, 0) == channel
      && p[7..7 + n] == apdu[..n]
  {
  }

  lemma NextPacketTaken(s: Sender, r: Receiver)
    requires InStep(s, r)
    ensures var (r', status) := Receive(r, NextPacket(s), EP_LENGTH);
      if Advance(s).remaining == 0 then status == Received && r' == Delivered(r, s.channel, s.data)
      else status == MoreData && InStep(Advance(s), r') && r'.mem[r.total..] == r.mem[r.total..]
           && |r'.mem| == |r.mem|
  {
    var p := NextPacket(s);
    assert U2BE(p, 3) == s.seqNo;
    var n := ChunkLength(s);
    assert p[5..5 + n] == s.data[s.at.value..s.at.value + n];
    assert Payload(r, p, EP_LENGTH) == s.data[s.at.value..s.at.value + n];
    assert s.data[..s.at.value + n] == s.data[..s.at.value] + s.data[s.at.value..s.at.value + n];
  }

  lemma {:induction false} RestReassembled(s: Sender, r: Receiver)
    requires InStep(s, r)
    ensures var ps := Packets(s);
      ps != [] && Feed(r, ps) == (Delivered(r, s.channel, s.data), Answers(|ps|))
    decreases s.remaining
  {
    var ps := Packets(s);
    NextPacketTaken(s, r);
    var (r1, status) := Receive(r, NextPacket(s), EP_LENGTH);
    if Advance(s).remaining > 0 {
      RestReassembled(Advance(s), r1);
    }
    assert ps[1..] == Packets(Advance(s));
    assert Answers(|ps|) == [status] + Feed(r1, ps[1..]).1;
  }

  /** Every APDU of 1 to 65535 bytes that fits the receiver's buffer arrives: all packets but the last are
      answered with "more data" and the last with "received", and then the buffer holds exactly the APDU, with
      its length and channel, and the receiver is ready for the next one. */
  lemma Reassembly(channel: uint16, apdu: seq<byte>, r: Receiver)
    requires Consistent(r) && r.seqNo == 0 && 0 < |apdu| <= |r.mem|
    ensures var ps := Packets(Start(channel, apdu));
      Feed(r, ps) == (Delivered(r, channel, apdu), Answers(|ps|))
  {
    hide InStep, Consistent, Receive, NextPacket;
    var s := Start(channel, apdu);
    var ps := Packets(s);
    FirstPacket(channel, apdu, r);
    ReceiveKeepsConsistent(r, NextPacket(s), EP_LENGTH);
    var (r1, status) := Receive(r, NextPacket(s), EP_LENGTH);
    if Advance(s).remaining > 0 {
      RestReassembled(Advance(s), r1);
    }
    assert ps[1..] == Packets(Advance(s));
    assert Answers(|ps|) == [status] + Feed(r1, ps[1..]).1;
  }

  // ------------------------------------------------------------------ resynchronisation

  lemma {:induction false} FeedConcat(r: Receiver, a: seq<Packet>, b: seq<Packet>)
    requires Consistent(r)
    ensures Consistent(Feed(r, a).0) && |Feed(r, a).0.mem| == |r.mem|
    ensures Feed(r, a + b) == (Feed(Feed(r, a).0, b).0, Feed(r, a).1 + Feed(Feed(r, a).0, b).1)
    decreases |a|
  {
    hide Receive, Consistent;
    if a == [] {
      assert a + b == b;
      assert Feed(r, b).1 == [] + Feed(r, b).1;
    } else {
      ReceiveKeepsConsistent(r, a[0], EP_LENGTH);
      var (r1, status) := Receive(r, a[0], EP_LENGTH);
      assert (a + b)[0] == a[0] && (a + b)[1..] == a[1..] + b;
      FeedConcat(r1, a[1..], b);
      var x, y := Feed(r1, a[1..]).1, Feed(Feed(r1, a[1..]).0, b).1;
      assert [status] + (x + y) == ([status] + x) + y;
    }
  }

  /** A sender behind its first packet. */
  ghost predicate UnderWay(s: Sender) {
    && s.seqNo > 0 && s.at == Some(57 + 59 * (s.seqNo - 1)) && |s.data| < 0x1_0000
    && s.at.value + s.remaining == |s.data|
  }

  lemma LatePacketIgnored(s: Sender, r: Receiver)
    requires Consistent(r) && r.seqNo == 0 && UnderWay(s)
    ensures Receive(r, NextPacket(s), EP_LENGTH) == (r, Reset)
  {
    assert U2BE(NextPacket(s), 3) == s.seqNo;
  }

  /** A receiver without an APDU under way ignores the packets of one that has begun without it. */
  lemma {:induction false} LatePacketsIgnored(s: Sender, r: Receiver)
    requires Consistent(r) && r.seqNo == 0 && (s.remaining == 0 || UnderWay(s)) && s.at.Some?
    requires s.at.value + s.remaining <= |s.data|
    ensures Feed(r, Packets(s)).0 == r
    decreases s.remaining
  {
    if s.remaining > 0 {
      LatePacketIgnored(s, r);
      hide Receive, NextPacket;
      LatePacketsIgnored(Advance(s), r);
      assert Packets(s)[1..] == Packets(Advance(s));
    }
  }

  /** After all the packets of an APDU, the receiver is ready for the next one, whatever it was doing before. */
  lemma ReadyAfterTransmission(channel: uint16, apdu: seq<byte>, r: Receiver)
    requires Consistent(r) && 0 < |apdu| <= |r.mem|
    ensures Feed(r, Packets(Start(channel, apdu))).0.seqNo == 0
  {
    var s := Start(channel, apdu);
    if r.seqNo == 0 {
      Reassembly(channel, apdu, r);
    } else {
      var p, r1 := NextPacket(s), Init(r);
      assert U2BE(p, 3) == 0;
      assert Receive(r, p, EP_LENGTH).0 == r1;
      assert Packets(s)[1..] == Packets(Advance(s));
      LatePacketsIgnored(Advance(s), r1);
    }
  }

  /** From any state at all, an APDU that is sent twice arrives the second time. */
  lemma SecondTransmissionArrives(channel: uint16, apdu: seq<byte>, r: Receiver)
    requires Consistent(r) && 0 < |apdu| <= |r.mem|
    ensures var ps := Packets(Start(channel, apdu));
      && |Feed(r, ps).0.mem| == |r.mem|
      && Feed(r, ps + ps) == (Delivered(Feed(r, ps).0, channel, apdu), Feed(r, ps).1 + Answers(|ps|))
  {
    hide Receive, Packets, Delivered;
    var ps := Packets(Start(channel, apdu));
    FeedConcat(r, ps, ps);
    ReadyAfterTransmission(channel, apdu, r);
    Reassembly(channel, apdu, Feed(r, ps).0);
  }
}
