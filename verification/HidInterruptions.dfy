/** What packets that are not part of an APDU do to a reception under way (the switch of io_usb_hid_receive in
    src/os_io_usb.c). */
module HidInterruptions {
  import opened CTypes
  import opened HidTransport

  /** A version, channel or ping packet. */
  predicate Service(p: Packet) { p[2] in {0x00, 0x01, 0x02} }

  /** A packet of no known kind. */
  predicate Unknown(p: Packet) { p[2] != 0x05 && !Service(p) }

  // ------------------------------------------------------------------ packets that give a reception up

  /** Such a packet leaves the receiver as it was exactly if nothing was under way. */
  lemma ServiceKeepsIffIdle(r: Receiver, p: Packet, l: uint16)
    requires Consistent(r) && Service(p)
    ensures Receive(r, p, l).0 == r <==> r.seqNo == 0
    ensures Receive(r, p, l).0.seqNo == 0 && Receive(r, p, l).1 == Reset
  {
  }

  /** The packets of a run that belong to an APDU. */
  function ApduPackets(qs: seq<Packet>): seq<Packet> {
    if qs == [] then []
    else if qs[0][2] == 0x05 then [qs[0]] + ApduPackets(qs[1..])
    else ApduPackets(qs[1..])
  }

  /** A run that brings the packets ps in order, with any number of version, channel and ping packets anywhere. */
  ghost predicate Interleaved(qs: seq<Packet>, ps: seq<Packet>) {
    ApduPackets(qs) == ps && forall i :: 0 <= i < |qs| ==> qs[i][2] == 0x05 || Service(qs[i])
  }

  /** The packets ps follow each other without interruption from position i on. */
  predicate UninterruptedAt(qs: seq<Packet>, ps: seq<Packet>, i: nat) {
    i + |ps| <= |qs| && qs[i..i + |ps|] == ps
  }

  lemma InterleavedStep(qs: seq<Packet>, ps: seq<Packet>)
    requires Interleaved(qs, ps) && qs != []
    ensures qs[0][2] == 0x05 ==> ps != [] && qs[0] == ps[0] && Interleaved(qs[1..], ps[1..])
    ensures qs[0][2] != 0x05 ==> Service(qs[0]) && Interleaved(qs[1..], ps)
  {
    if qs[0][2] == 0x05 {
      assert ps[1..] == ApduPackets(qs[1..]);
    }
  }

  lemma FeedStep(r: Receiver, qs: seq<Packet>)
    requires Consistent(r) && qs != []
    ensures var (r1, status) := Receive(r, qs[0], EP_LENGTH);
      && Consistent(r1) && |r1.mem| == |r.mem|
      && Feed(r, qs) == (Feed(r1, qs[1..]).0, [status] + Feed(r1, qs[1..]).1)
  {
    ReceiveKeepsConsistent(r, qs[0], EP_LENGTH);
  }

  /** A sender behind its first packet stays behind it. */
  lemma StillUnderWay(s: Sender)
    requires UnderWay(s) && s.remaining > 0
    ensures Advance(s).remaining == 0 || UnderWay(Advance(s))
    ensures Advance(s).at.Some? && Advance(s).at.value + Advance(s).remaining <= |s.data| == |Advance(s).data|
    ensures Advance(s).remaining < s.remaining && Advance(s).data == s.data && Advance(s).channel == s.channel
  {
  }

  function Resets(n: nat): (a: seq<Status>)
    ensures |a| == n && forall i :: 0 <= i < n ==> a[i] == Reset
  {
    seq(n, _ => Reset)
  }

  /** Once the beginning has been missed, everything is answered with a reset. */
  lemma {:induction false} LateRun(s: Sender, r: Receiver, qs: seq<Packet>)
    requires Consistent(r) && r.seqNo == 0 && (s.remaining == 0 || UnderWay(s)) && s.at.Some?
    requires s.at.value + s.remaining <= |s.data| && Interleaved(qs, Packets(s))
    ensures Feed(r, qs) == (r, Resets(|qs|))
    decreases |qs|
  {
    hide Receive, Packets, NextPacket, Advance, UnderWay, Consistent, ApduPackets, Interleaved, Feed, Service;
    if qs == [] {
      NothingFed(r);
      assert Resets(|qs|) == [];
    } else {
      InterleavedStep(qs, Packets(s));
      FeedStep(r, qs);
      if qs[0][2] == 0x05 {
        LateHead(s);
        LatePacketIgnored(s, r);
        LateRun(Advance(s), r, qs[1..]);
      } else {
        ServiceKeepsIffIdle(r, qs[0], EP_LENGTH);
        LateRun(s, r, qs[1..]);
      }
      assert Resets(|qs|) == [Reset] + Resets(|qs| - 1);
    }
  }

  lemma NothingFed(r: Receiver)
    requires Consistent(r)
    ensures Feed(r, []) == (r, [])
  {
  }

  /** A late packet is the next of the sender that is under way. */
  lemma LateHead(s: Sender)
    requires (s.remaining == 0 || UnderWay(s)) && s.at.Some? && s.at.value + s.remaining <= |s.data| && Packets(s) != []
    ensures UnderWay(s) && Packets(s)[0] == NextPacket(s) && Packets(s)[1..] == Packets(Advance(s))
    ensures Advance(s).remaining == 0 || UnderWay(Advance(s))
    ensures Advance(s).at.Some? && Advance(s).at.value + Advance(s).remaining <= |Advance(s).data|
  {
    assert s.remaining > 0;
    PacketsStep(s);
    StillUnderWay(s);
  }

  /** How a reception under way ends: with the rest of its packets next in the run, the APDU arrives; otherwise it is
      given up, and all that follows is answered with a reset. */
  lemma {:induction false} MidRun(s: Sender, r: Receiver, qs: seq<Packet>)
    requires InStep(s, r) && Interleaved(qs, Packets(s)) && |s.data| <= |r.mem|
    ensures Received in Feed(r, qs).1 <==> UninterruptedAt(qs, Packets(s), 0)
    ensures UninterruptedAt(qs, Packets(s), 0) ==> Feed(r, qs).0 == Delivered(r, s.channel, s.data)
    decreases |qs|
  {
    hide Receive, NextPacket, Advance, InStep, Consistent, ApduPackets, Interleaved, Feed, Service, UnderWay, Resets,
         Packets;
    InStepIs(s, r);
    PacketsStep(s);
    var ps := Packets(s);
    ApduNotEmpty(qs, ps);
    InterleavedStep(qs, ps);
    FeedStep(r, qs);
    var (r1, status) := Receive(r, qs[0], EP_LENGTH);
    if qs[0][2] == 0x05 {
      NextPacketTaken(s, r);
      StillUnderWay(s);
      Shorter(qs, ps);
      if Advance(s).remaining == 0 {
        NothingToSend(Advance(s));
        DeliveredIsIdle(r, s.channel, s.data);
        LateRun(Advance(s), r1, qs[1..]);
      } else {
        MidRun(Advance(s), r1, qs[1..]);
        SameDelivered(r, r1, s.channel, s.data);
      }
    } else {
      ServiceKeepsIffIdle(r, qs[0], EP_LENGTH);
      LateRun(s, r1, qs[1..]);
    }
  }

  lemma InStepIs(s: Sender, r: Receiver)
    requires InStep(s, r)
    ensures Consistent(r) && r.seqNo > 0 && s.remaining > 0 && s.at.Some? && s.at.value + s.remaining == |s.data|
    ensures UnderWay(s) && r.total == |s.data|
  {
  }

  lemma ApduNotEmpty(qs: seq<Packet>, ps: seq<Packet>)
    requires Interleaved(qs, ps) && ps != []
    ensures qs != []
  {
  }

  /** Without the first packet. */
  lemma Shorter(qs: seq<Packet>, ps: seq<Packet>)
    requires qs != [] && ps != [] && qs[0] == ps[0]
    ensures UninterruptedAt(qs, ps, 0) <==> UninterruptedAt(qs[1..], ps[1..], 0)
  {
    if |ps| <= |qs| {
      assert qs[..|ps|] == [qs[0]] + qs[1..][..|ps| - 1] && ps == [ps[0]] + ps[1..];
    }
  }

  /** Without a packet in front that is not among ps. */
  lemma Later(qs: seq<Packet>, ps: seq<Packet>)
    requires qs != [] && ps != [] && qs[0] != ps[0]
    ensures (exists i :: UninterruptedAt(qs, ps, i)) <==> (exists i :: UninterruptedAt(qs[1..], ps, i))
  {
    if i: nat :| UninterruptedAt(qs, ps, i) {
      assert qs[i..i + |ps|][0] == qs[i];
      assert qs[1..][i - 1..i - 1 + |ps|] == qs[i..i + |ps|];
      assert UninterruptedAt(qs[1..], ps, i - 1);
    }
    if i: nat :| UninterruptedAt(qs[1..], ps, i) {
      assert qs[1..][i..i + |ps|] == qs[i + 1..i + 1 + |ps|];
      assert UninterruptedAt(qs, ps, i + 1);
    }
  }

  lemma {:induction false} ApduPacketsConcat(a: seq<Packet>, b: seq<Packet>)
    ensures ApduPackets(a + b) == ApduPackets(a) + ApduPackets(b)
    decreases |a|
  {
    if a == [] {
      assert a + b == b;
    } else {
      assert (a + b)[1..] == a[1..] + b;
      ApduPacketsConcat(a[1..], b);
    }
  }

  lemma {:induction false} AllApdus(ps: seq<Packet>)
    requires forall i :: 0 <= i < |ps| ==> ps[i][2] == 0x05
    ensures ApduPackets(ps) == ps
  {
    if ps != [] {
      AllApdus(ps[1..]);
      assert ps == [ps[0]] + ps[1..];
    }
  }

  lemma {:induction false} PacketsAreApdus(s: Sender)
    requires s.at.Some? && s.at.value + s.remaining <= |s.data|
    ensures forall i :: 0 <= i < |Packets(s)| ==> Packets(s)[i][2] == 0x05
    decreases s.remaining
  {
    if s.remaining > 0 {
      PacketsStep(s);
      hide Packets, NextPacket;
      PacketsAreApdus(Advance(s));
      var ps := Packets(s);
      assert forall i :: 1 <= i < |ps| ==> ps[i] == ps[1..][i - 1];
    }
  }

  /** A run that brings ps once cannot begin with its first packet and bring the whole of it later. */
  lemma NotAgain(qs: seq<Packet>, ps: seq<Packet>)
    requires ApduPackets(qs) == ps == ApduPackets(ps) && qs != [] && qs[0][2] == 0x05
    ensures (exists i :: UninterruptedAt(qs, ps, i)) <==> UninterruptedAt(qs, ps, 0)
  {
    if i: nat :| UninterruptedAt(qs, ps, i) && i > 0 {
      var a, b := qs[..i], qs[i + |ps|..];
      assert qs == a + ps + b && a[0] == qs[0];
      ApduPacketsConcat(a + ps, b);
      ApduPacketsConcat(a, ps);
      assert |ApduPackets(a)| > 0;
    }
  }

  /** The comments of the source promise that version, channel and ping packets do not reset a reception under way. An
      APDU that is sent with any number of them in between arrives exactly if none of them comes between its first and
      its last packet. */
  lemma {:induction false} ArrivesIffUninterrupted(channel: uint16, apdu: seq<byte>, r: Receiver, qs: seq<Packet>)
    requires Consistent(r) && r.seqNo == 0 && 0 < |apdu| <= |r.mem|
    requires Interleaved(qs, Packets(Start(channel, apdu)))
    ensures Received in Feed(r, qs).1 <==> exists i :: UninterruptedAt(qs, Packets(Start(channel, apdu)), i)
    ensures Received in Feed(r, qs).1 ==> Feed(r, qs).0 == Delivered(r, channel, apdu)
    decreases |qs|
  {
    var s := Start(channel, apdu);
    PacketsStep(s);
    PacketsAreApdus(s);
    StartedUnderWay(s);
    hide Receive, NextPacket, Packets, Advance, InStep, Consistent, ApduPackets, Interleaved, Feed, Service, UnderWay,
         Resets, UninterruptedAt, Delivered;
    var ps := Packets(s);
    ApduNotEmpty(qs, ps);
    InterleavedStep(qs, ps);
    FeedStep(r, qs);
    var (r1, status) := Receive(r, qs[0], EP_LENGTH);
    if qs[0][2] == 0x05 {
      FirstPacket(channel, apdu, r);
      AllApdus(ps);
      InterleavedIs(qs, ps);
      NotAgain(qs, ps);
      Shorter(qs, ps);
      if Advance(s).remaining == 0 {
        NothingToSend(Advance(s));
        NothingIsUninterrupted(qs[1..]);
        DeliveredIsIdle(r, channel, apdu);
        LateRun(Advance(s), r1, qs[1..]);
      } else {
        MidRun(Advance(s), r1, qs[1..]);
        SameDelivered(r, r1, channel, apdu);
      }
    } else {
      ServiceKeepsIffIdle(r, qs[0], EP_LENGTH);
      ArrivesIffUninterrupted(channel, apdu, r, qs[1..]);
      Later(qs, ps);
    }
  }

  lemma InterleavedIs(qs: seq<Packet>, ps: seq<Packet>)
    requires Interleaved(qs, ps)
    ensures ApduPackets(qs) == ps
  {
  }

  lemma NothingIsUninterrupted(qs: seq<Packet>)
    ensures UninterruptedAt(qs, [], 0)
  {
  }

  lemma DeliveredIsIdle(r: Receiver, channel: nat, apdu: seq<byte>)
    requires Consistent(r) && |apdu| <= |r.mem|
    ensures Consistent(Delivered(r, channel, apdu)) && Delivered(r, channel, apdu).seqNo == 0
  {
  }

  lemma SameDelivered(r: Receiver, r1: Receiver, channel: nat, apdu: seq<byte>)
    requires |apdu| <= |r.mem| == |r1.mem| && r1.mem[|apdu|..] == r.mem[|apdu|..]
    ensures Delivered(r1, channel, apdu) == Delivered(r, channel, apdu)
  {
  }

  lemma StartedUnderWay(s: Sender)
    requires s.at == Some(0) && s.seqNo == 0 && s.remaining == |s.data| < 0x1_0000 && s.remaining > 0
    ensures var s1 := Advance(s);
      && s1.at.Some? && s1.at.value + s1.remaining == |s1.data| && s1.data == s.data && s1.channel == s.channel
      && (s1.remaining == 0 || UnderWay(s1))
  {
  }

  /** A single such packet: the reception survives exactly in front of the first packet and behind the last. */
  lemma OneInterruption(channel: uint16, apdu: seq<byte>, r: Receiver, p: Packet, k: nat)
    requires Consistent(r) && r.seqNo == 0 && 0 < |apdu| <= |r.mem| && Service(p)
    requires k <= |Packets(Start(channel, apdu))|
    ensures var ps := Packets(Start(channel, apdu));
      Received in Feed(r, ps[..k] + [p] + ps[k..]).1 <==> k == 0 || k == |ps|
  {
    var s := Start(channel, apdu);
    PacketsAreApdus(s);
    hide Packets, Feed, Receive;
    var ps := Packets(s);
    OneInserted(ps, p, k);
    ArrivesIffUninterrupted(channel, apdu, r, ps[..k] + [p] + ps[k..]);
  }

  lemma OneInserted(ps: seq<Packet>, p: Packet, k: nat)
    requires Service(p) && k <= |ps| && forall i :: 0 <= i < |ps| ==> ps[i][2] == 0x05
    ensures var qs := ps[..k] + [p] + ps[k..];
      Interleaved(qs, ps) && ((exists i :: UninterruptedAt(qs, ps, i)) <==> k == 0 || k == |ps|)
  {
    InsertedIsInterleaved(ps, p, k);
    NoApdu(p);
    hide *;
    if k == 0 || k == |ps| {
      AtOneEnd(ps, p, k);
    } else if i: nat :| UninterruptedAt(ps[..k] + [p] + ps[k..], ps, i) {
      NotInBetween(ps, p, k, i);
    }
  }

  lemma InsertedIsInterleaved(ps: seq<Packet>, p: Packet, k: nat)
    requires Service(p) && k <= |ps| && forall i :: 0 <= i < |ps| ==> ps[i][2] == 0x05
    ensures Interleaved(ps[..k] + [p] + ps[k..], ps)
  {
    var a, b := ps[..k], ps[k..];
    AllApdus(a);
    AllApdus(b);
    NoApdu(p);
    hide ApduPackets, Service;
    ApduPacketsConcat(a + [p], b);
    ApduPacketsConcat(a, [p]);
    assert a + [] + b == ps;
  }

  lemma NoApdu(p: Packet)
    requires Service(p)
    ensures p[2] != 0x05 && ApduPackets([p]) == []
  {
    assert [p][1..] == [];
  }

  lemma AtOneEnd(ps: seq<Packet>, p: Packet, k: nat)
    requires k == 0 || k == |ps|
    ensures UninterruptedAt(ps[..k] + [p] + ps[k..], ps, if k == 0 then 1 else 0)
  {
    var qs := ps[..k] + [p] + ps[k..];
    if k == 0 {
      assert qs[1..1 + |ps|] == ps;
    } else {
      assert qs[..|ps|] == ps;
    }
  }

  lemma NotInBetween(ps: seq<Packet>, p: Packet, k: nat, i: nat)
    requires 0 < k < |ps| && p !in ps
    ensures !UninterruptedAt(ps[..k] + [p] + ps[k..], ps, i)
  {
    var qs := ps[..k] + [p] + ps[k..];
    assert i + |ps| <= |qs| ==> qs[i..i + |ps|][k - i] == qs[k] == p;
  }

  // ------------------------------------------------------------------ packets of unknown kind

  /** A packet of unknown kind changes nothing at all, wherever it comes in a run. It is answered with "received" if
      nothing is under way, although no APDU has been completed. */
  lemma UnknownIsTransparent(r: Receiver, a: seq<Packet>, p: Packet, b: seq<Packet>)
    requires Consistent(r) && Unknown(p)
    ensures Consistent(Feed(r, a).0)
    ensures var r1 := Feed(r, a).0;
      && Feed(r, a + b) == (Feed(r1, b).0, Feed(r, a).1 + Feed(r1, b).1)
      && Feed(r, a + [p] + b) ==
           (Feed(r1, b).0, Feed(r, a).1 + [if r1.seqNo == 0 then Received else MoreData] + Feed(r1, b).1)
  {
    FeedConcat(r, a, b);
    FeedConcat(r, a + [p], b);
    FeedConcat(r, a, [p]);
    var r1 := Feed(r, a).0;
    hide Feed;
    UnknownAnswer(r1, p);
  }

  lemma UnknownAnswer(r: Receiver, p: Packet)
    requires Consistent(r) && Unknown(p)
    ensures Receive(r, p, EP_LENGTH) == (r, if r.seqNo == 0 then Received else MoreData)
    ensures Feed(r, [p]) == (r, [if r.seqNo == 0 then Received else MoreData])
  {
    var answer := if r.seqNo == 0 then Received else MoreData;
    assert Receive(r, p, EP_LENGTH) == (r, answer);
    FeedStep(r, [p]);
    NothingFed(r);
    assert [p][1..] == [] && [answer] + [] == [answer];
  }
}
