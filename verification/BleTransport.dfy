/** The chunked transport of src/ledger_protocol.c, which BLE uses: an APDU is cut into chunks of at most mtu
    bytes and put together again. This module holds the two state machines as functions. */
module BleTransport {
  import opened CTypes
  import N = Numerals

  const TAG_APDU := 0x05

  datatype Status = Waiting | NeedMoreData | Complete

  // ------------------------------------------------------------------ receiving

  /** The rx_apdu_* fields; mem is the contents of the APDU buffer, of which maxLength bytes may be used. */
  datatype Receiver = Receiver(status: Status, seqNo: uint16, length: uint16, offset: uint16, maxLength: uint16,
                               mem: seq<byte>)

  ghost predicate Consistent(r: Receiver) {
    && r.maxLength <= |r.mem|
    && (r.seqNo > 0 ==> r.offset < r.length <= r.maxLength)
  }

  /** The first chunk of an APDU: its length, unless it does not fit. */
  function Announced(r: Receiver, c: seq<byte>): Receiver
    requires |c| >= 4
  {
    if U2BE(c, 2) > r.maxLength then r.(length := U2BE(c, 2), status := Waiting)
    else r.(length := U2BE(c, 2), offset := 0, status := NeedMoreData)
  }

  /** The data of a chunk, cut to the announced length. */
  function Store(r: Receiver, data: seq<byte>): Receiver
    requires r.offset <= r.length <= |r.mem|
  {
    var n := Min(|data|, r.length - r.offset);
    var r' := r.(mem := r.mem[..r.offset] + data[..n] + r.mem[r.offset + n..], offset := r.offset + n);
    if r'.offset == r'.length then r'.(seqNo := 0, status := Complete)
    else r'.(seqNo := U16(r'.seqNo + 1), status := NeedMoreData)
  }

  /** Whether a chunk is taken at all. */
  predicate Expected(r: Receiver, c: seq<byte>) {
    |c| >= 2 && U2BE(c, 0) == r.seqNo && (r.seqNo == 0 ==> |c| >= 4)
  }

  /** process_apdu_chunk, for what follows the tag. */
  function ProcessChunk(r: Receiver, c: seq<byte>): Receiver
    requires Consistent(r)
  {
    if !Expected(r, c) then r.(status := Waiting)
    else if r.seqNo == 0 then
      if U2BE(c, 2) > r.maxLength then Announced(r, c) else Store(Announced(r, c), c[4..])
    else Store(r, c[2..])
  }

  /** LEDGER_PROTOCOL_rx, as far as APDUs are concerned. */
  function Receive(r: Receiver, chunk: seq<byte>): Receiver
    requires Consistent(r)
  {
    if |chunk| >= 3 && chunk[2] == TAG_APDU then ProcessChunk(r, chunk[3..]) else r
  }

  lemma ReceiveKeepsConsistent(r: Receiver, chunk: seq<byte>)
    requires Consistent(r)
    ensures Consistent(Receive(r, chunk)) && |Receive(r, chunk).mem| == |r.mem|
    ensures Receive(r, chunk).maxLength == r.maxLength
  {
  }

  /** A chunk of another kind, or too short to have a kind, is nothing to the receiver. */
  lemma OtherChunk(r: Receiver, chunk: seq<byte>)
    requires Consistent(r) && (|chunk| < 3 || chunk[2] != 5)
    ensures Receive(r, chunk) == r
  {
  }

  /** A chunk of an APDU that is cut off or not the expected one changes the status and nothing else; one that announces
      more than there is room for also leaves its length behind. */
  lemma RefusedChunk(r: Receiver, chunk: seq<byte>)
    requires Consistent(r) && |chunk| >= 3 && chunk[2] == 5
    ensures var expected := |chunk| >= (if r.seqNo == 0 then 7 else 5) &&
        chunk[3] as int * 256 + chunk[4] as int == r.seqNo;
      && (!expected ==> Receive(r, chunk) == r.(status := Waiting))
      && (expected && r.seqNo == 0 && chunk[5] as int * 256 + chunk[6] as int > r.maxLength ==>
            Receive(r, chunk) == r.(status := Waiting, length := chunk[5] as int * 256 + chunk[6] as int))
  {
  }

  lemma HeaderNumbers(chunk: seq<byte>)
    requires |chunk| >= 5
    ensures U2BE(chunk[3..], 0) == chunk[3] as int * 256 + chunk[4] as int
    ensures |chunk| >= 7 ==> U2BE(chunk[3..], 2) == chunk[5] as int * 256 + chunk[6] as int
  {
  }

  lemma StoreBytes(r: Receiver, data: seq<byte>)
    requires r.offset <= r.length <= |r.mem|
    ensures var r', left := Store(r, data), r.length - r.offset;
      var n := if |data| < left then |data| else left;
      && |r'.mem| == |r.mem| && r'.length == r.length && r'.offset == r.offset + n && r'.maxLength == r.maxLength
      && (forall i :: 0 <= i < |r.mem| ==>
            r'.mem[i] == if r.offset <= i < r.offset + n then data[i - r.offset] else r.mem[i])
      && (if n == left then r'.status == Complete && r'.seqNo == 0
          else r'.status == NeedMoreData && r'.seqNo == (r.seqNo + 1) % 0x1_0000)
  {
  }

  /** What every other chunk of an APDU does, byte by byte. */
  lemma AcceptedChunk(r: Receiver, chunk: seq<byte>)
    requires Consistent(r) && |chunk| >= (if r.seqNo == 0 then 7 else 5)
    requires chunk[2] == 5 && chunk[3] as int * 256 + chunk[4] as int == r.seqNo
    requires r.seqNo == 0 ==> chunk[5] as int * 256 + chunk[6] as int <= r.maxLength
    ensures var r' := Receive(r, chunk);
      var first := r.seqNo == 0;
      var header, at := if first then 7 else 5, if first then 0 else r.offset;
      var length := if first then chunk[5] as int * 256 + chunk[6] as int else r.length;
      var n := if |chunk| - header < length - at then |chunk| - header else length - at;
      && at + n <= |r.mem| == |r'.mem| && r'.length == length && r'.offset == at + n
      && (forall i :: 0 <= i < |r.mem| ==>
            r'.mem[i] == if at <= i < at + n then chunk[header + (i - at)] else r.mem[i])
      && (if at + n == length then r'.status == Complete && r'.seqNo == 0
          else r'.status == NeedMoreData && r'.seqNo == (r.seqNo + 1) % 0x1_0000)
  {
    HeaderNumbers(chunk);
    hide U2BE, Store;
    if r.seqNo == 0 {
      assert chunk[3..][4..] == chunk[7..];
      StoreBytes(Announced(r, chunk[3..]), chunk[7..]);
    } else {
      assert chunk[3..][2..] == chunk[5..];
      StoreBytes(r, chunk[5..]);
    }
  }

  /** The data accepted for the APDU under way, after one more chunk. */
  function Collect(r: Receiver, sofar: seq<byte>, chunk: seq<byte>): seq<byte>
    requires Consistent(r)
  {
    if !(|chunk| >= 3 && chunk[2] == TAG_APDU && Expected(r, chunk[3..])) then sofar
    else if r.seqNo == 0 then
      if U2BE(chunk, 5) > r.maxLength then sofar else chunk[7..7 + Min(|chunk| - 7, U2BE(chunk, 5))]
    else sofar + chunk[5..5 + Min(|chunk| - 5, r.length - r.offset)]
  }

  /** A run over any chunks. */
  function RunReceiver(r: Receiver, chunks: seq<seq<byte>>): (Receiver, seq<byte>)
    requires Consistent(r)
    ensures Consistent(RunReceiver(r, chunks).0)
  {
    if chunks == [] then (r, [])
    else
      var (r1, sofar) := RunReceiver(r, chunks[..|chunks| - 1]);
      var chunk := chunks[|chunks| - 1];
      ReceiveKeepsConsistent(r1, chunk);
      (Receive(r1, chunk), Collect(r1, sofar, chunk))
  }

  /** Over every run from the idle state: while an APDU is under way the buffer begins with the data accepted so
      far, which is less than the announced length; and whenever an APDU is complete the buffer begins with
      exactly what was accepted for it. */
  lemma {:induction false} RunsAreSafe(r: Receiver, chunks: seq<seq<byte>>)
    requires Consistent(r) && r.seqNo == 0 && r.status != Complete
    ensures var (r', sofar) := RunReceiver(r, chunks);
      && (r'.seqNo > 0 ==> r'.offset < r'.length <= r'.maxLength && r'.mem[..r'.offset] == sofar)
      && (r'.status == Complete ==> r'.length <= r'.maxLength && r'.mem[..r'.length] == sofar)
  {
    if chunks != [] {
      var init, chunk := chunks[..|chunks| - 1], chunks[|chunks| - 1];
      RunsAreSafe(r, init);
      var (r1, sofar) := RunReceiver(r, init);
      StepIsSafe(r1, sofar, chunk);
    }
  }

  lemma StepIsSafe(r: Receiver, sofar: seq<byte>, chunk: seq<byte>)
    requires Consistent(r) && (r.seqNo > 0 ==> r.mem[..r.offset] == sofar)
    requires r.status == Complete ==> r.length <= r.maxLength && r.mem[..r.length] == sofar
    ensures var r', all := Receive(r, chunk), Collect(r, sofar, chunk);
      && (r'.seqNo > 0 ==> r'.offset <= |r'.mem| && r'.mem[..r'.offset] == all)
      && (r'.status == Complete ==> r'.length <= r'.maxLength <= |r'.mem| && r'.mem[..r'.length] == all)
  {
    if |chunk| >= 3 && chunk[2] == TAG_APDU && Expected(r, chunk[3..]) {
      TakenChunk(r, sofar, chunk);
      var (r1, data) := Taken(r, chunk);
      hide Receive, Collect, Taken, Store, U2BE, Expected;
      if !(r.seqNo == 0 && U2BE(chunk, 5) > r.maxLength) {
        StoreAppends(r1, data);
      }
    }
  }

  /** For a chunk that is taken: where its data goes, and its data. */
  function Taken(r: Receiver, chunk: seq<byte>): (Receiver, seq<byte>)
    requires |chunk| >= 5 && (r.seqNo == 0 ==> |chunk| >= 7)
  {
    if r.seqNo == 0 then (Announced(r, chunk[3..]), chunk[7..]) else (r, chunk[5..])
  }

  lemma TakenChunk(r: Receiver, sofar: seq<byte>, chunk: seq<byte>)
    requires Consistent(r) && |chunk| >= 3 && chunk[2] == TAG_APDU && Expected(r, chunk[3..])
    ensures var (r1, data) := Taken(r, chunk);
      var r', all := Receive(r, chunk), Collect(r, sofar, chunk);
      if r.seqNo == 0 && U2BE(chunk, 5) > r.maxLength then r' == r1 && r'.status == Waiting && r'.seqNo == 0
      else
        && r1.offset <= r1.length <= |r1.mem| && r1.length <= r1.maxLength && r1.mem == r.mem
        && r1.offset == (if r.seqNo == 0 then 0 else r.offset)
        && r' == Store(r1, data)
        && all == (if r.seqNo == 0 then [] else sofar) + data[..Min(|data|, r1.length - r1.offset)]
  {
    if r.seqNo > 0 {
      assert chunk[3..][2..] == chunk[5..];
    } else {
      assert chunk[3..][4..] == chunk[7..] && U2BE(chunk, 5) == U2BE(chunk[3..], 2);
    }
  }

  lemma StoreAppends(r: Receiver, data: seq<byte>)
    requires r.offset <= r.length <= |r.mem|
    ensures var r' := Store(r, data);
      && r'.offset <= r'.length == r.length && |r'.mem| == |r.mem| && r'.maxLength == r.maxLength
      && (r'.status == Complete ==> r'.seqNo == 0)
      && r'.mem[..r'.offset] == r.mem[..r.offset] + data[..Min(|data|, r.length - r.offset)]
      && r'.mem[r.length..] == r.mem[r.length..]
      && (r'.status == Complete <==> r'.offset == r'.length)
      && (r'.status != Complete ==> r'.status == NeedMoreData && r'.seqNo == U16(r.seqNo + 1))
      && r'.offset == r.offset + Min(|data|, r.length - r.offset)
  {
  }

  // ------------------------------------------------------------------ sending

  /** The sizes for which every chunk has room for its header and fits the chunk buffer. */
  const MIN_MTU := 7
  const CHUNK_SIZE := 158

  type Mtu = m: nat | MIN_MTU <= m <= CHUNK_SIZE witness MIN_MTU

  /** The tx_apdu_* fields; pending is false when the buffer pointer is NULL. */
  datatype Sender = Sender(pending: bool, seqNo: uint16, offset: nat, data: seq<byte>)

  function Start(apdu: seq<byte>): Sender { Sender(true, 0, 0, apdu) }

  function HeaderLength(s: Sender): nat { if s.seqNo == 0 then 7 else 5 }

  /** Whether what remains fills a whole chunk. */
  predicate FillsChunk(s: Sender, mtu: Mtu) {
    |s.data| + HeaderLength(s) >= mtu + s.offset
  }

  function PayloadEnd(s: Sender, mtu: Mtu): nat {
    if FillsChunk(s, mtu) then s.offset + (mtu - HeaderLength(s)) else |s.data|
  }

  /** The next chunk: channel, tag, sequence number, in the first chunk the length of the APDU, data. */
  function NextChunk(s: Sender, channel: seq<byte>, mtu: Mtu): seq<byte>
    requires s.offset <= |s.data|
  {
    channel + [TAG_APDU, Hi(s.seqNo), Lo(s.seqNo)] + (if s.seqNo == 0 then [Hi(|s.data|), Lo(|s.data|)] else []) +
    s.data[s.offset..PayloadEnd(s, mtu)]
  }

  /** A chunk byte by byte, and how long it is. */
  lemma ChunkBytes(s: Sender, channel: seq<byte>, mtu: nat, k: nat)
    requires 7 <= mtu <= 158 && s.offset <= |s.data| && |channel| == 2
    ensures var chunk, header := NextChunk(s, channel, mtu), if s.seqNo == 0 then 7 else 5;
      && |chunk| == (if header + |s.data| - s.offset < mtu then header + |s.data| - s.offset else mtu)
      && (k < |chunk| ==>
            chunk[k] as int ==
              if k < 2 then channel[k] else if k == 2 then 5
              else if k == 3 then s.seqNo / 256 else if k == 4 then s.seqNo % 256
              else if k < header then (if k == 5 then |s.data| / 256 % 256 else |s.data| % 256)
              else s.data[s.offset + k - header])
  {
  }

  /** LEDGER_PROTOCOL_tx, for what it does to the sender. */
  function Advance(s: Sender, mtu: Mtu): Sender {
    if FillsChunk(s, mtu) then s.(offset := PayloadEnd(s, mtu), seqNo := U16(s.seqNo + 1))
    else s.(offset := |s.data|, pending := false)
  }

  /** Between two chunks the sequence number counts the full chunks sent; so it cannot wrap around. */
  ghost predicate Sending(s: Sender, mtu: Mtu) {
    && s.pending && s.offset <= |s.data| < 0x1_0000
    && s.offset == if s.seqNo == 0 then 0 else mtu - 7 + (mtu - 5) * (s.seqNo - 1)
  }

  lemma FullChunks(d: nat, k: nat)
    requires d >= 2
    ensures d * k + d == d * (k + 1) && d * k >= 2 * k
  {
  }

  lemma AdvanceKeepsSending(s: Sender, mtu: Mtu)
    requires Sending(s, mtu)
    ensures Advance(s, mtu).pending <==> FillsChunk(s, mtu)
    ensures FillsChunk(s, mtu) ==> Sending(Advance(s, mtu), mtu) && Advance(s, mtu).seqNo == s.seqNo + 1
  {
    if s.seqNo > 0 {
      FullChunks(mtu - 5, s.seqNo - 1);
    }
  }

  /** The chunks that LEDGER_PROTOCOL_tx produces until its buffer pointer is NULL. */
  function Chunks(s: Sender, channel: seq<byte>, mtu: Mtu): (cs: seq<seq<byte>>)
    requires Sending(s, mtu)
    ensures cs != []
    decreases |s.data| - s.offset, if s.seqNo == 0 then 1 else 0
  {
    AdvanceKeepsSending(s, mtu);
    [NextChunk(s, channel, mtu)] +
    if FillsChunk(s, mtu) then Chunks(Advance(s, mtu), channel, mtu) else []
  }

  // ------------------------------------------------------------------ reassembly

  /** The receiver over a sequence of chunks: the state and the status behind every chunk. */
  function Feed(r: Receiver, cs: seq<seq<byte>>): (Receiver, seq<Status>)
    requires Consistent(r)
    decreases |cs|
  {
    if cs == [] then (r, [])
    else
      ReceiveKeepsConsistent(r, cs[0]);
      var r1 := Receive(r, cs[0]);
      var (r2, statuses) := Feed(r1, cs[1..]);
      (r2, [r1.status] + statuses)
  }

  /** More data is needed, until the last of n chunks completes the APDU. */
  function Statuses(n: nat): seq<Status>
    requires n > 0
  {
    seq(n, i => if i < n - 1 then NeedMoreData else Complete)
  }

  /** The receiver with the APDU in its buffer, ready for the next one. */
  function Delivered(r: Receiver, apdu: seq<byte>): Receiver
    requires |apdu| <= |r.mem| && |apdu| < 0x1_0000
  {
    Receiver(Complete, 0, |apdu|, |apdu|, r.maxLength, apdu + r.mem[|apdu|..])
  }

  /** The two sides have got equally far, but not to the end. */
  ghost predicate InStep(s: Sender, r: Receiver, mtu: Mtu) {
    && Consistent(r) && Sending(s, mtu) && s.seqNo == r.seqNo > 0 && s.offset == r.offset
    && r.length == |s.data| && r.mem[..r.offset] == s.data[..s.offset]
  }

  /** A chunk without data, and not the first one. */
  predicate Trailing(c: seq<byte>) {
    |c| == 5 && c[2] == TAG_APDU && U2BE(c, 3) > 0
  }

  /** Both sides have got equally far, perhaps to the end. */
  ghost predicate Level(s: Sender, r: Receiver) {
    && s.seqNo == r.seqNo && s.offset == r.offset <= r.length == |s.data| <= r.maxLength <= |r.mem|
    && r.mem[..r.offset] == s.data[..s.offset]
  }

  /** What r' is to be after r has taken a chunk, with s the sender behind it. */
  ghost predicate Kept(s: Sender, r: Receiver, r': Receiver, mtu: Mtu)
    requires |s.data| <= |r.mem| && |s.data| < 0x1_0000
  {
    if s.offset == |s.data| then r' == Delivered(r, s.data)
    else
      && r'.status == NeedMoreData && InStep(s, r', mtu) && |r'.mem| == |r.mem| && r'.maxLength == r.maxLength
      && r'.mem[|s.data|..] == r.mem[|s.data|..]
  }

  lemma KeptIs(s: Sender, r: Receiver, r': Receiver, mtu: Mtu)
    requires |s.data| <= |r.mem| && |s.data| < 0x1_0000 && Kept(s, r, r', mtu)
    ensures if s.offset == |s.data| then r' == Delivered(r, s.data)
            else
              && r'.status == NeedMoreData && InStep(s, r', mtu) && |r'.mem| == |r.mem| && r'.maxLength == r.maxLength
              && r'.mem[|s.data|..] == r.mem[|s.data|..]
  {
  }

  lemma InStepIs(s: Sender, r: Receiver, mtu: Mtu)
    requires InStep(s, r, mtu)
    ensures Consistent(r) && Sending(s, mtu) && s.seqNo > 0 && s.offset <= |s.data| <= |r.mem| && |s.data| < 0x1_0000
  {
  }

  lemma DataStored(s: Sender, r: Receiver, mtu: Mtu)
    requires Level(s, r) && Sending(s, mtu) && s.offset <= PayloadEnd(s, mtu) <= |s.data|
    ensures Kept(Advance(s, mtu), r, Store(r, s.data[s.offset..PayloadEnd(s, mtu)]), mtu)
  {
    var e := PayloadEnd(s, mtu);
    var r' := Store(r, s.data[s.offset..e]);
    AdvanceKeepsSending(s, mtu);
    AdvanceIs(s, mtu);
    StoreAppends(r, s.data[s.offset..e]);
    hide Store, Advance, PayloadEnd, Sending, FillsChunk;
    Extended(s.data, s.offset, e);
    assert r'.mem[..e] == s.data[..e];
    if e == |s.data| {
      assert s.data[..e] == s.data;
      assert r'.mem == r'.mem[..e] + r'.mem[e..];
    }
  }

  lemma Extended(data: seq<byte>, i: nat, j: nat)
    requires i <= j <= |data|
    ensures data[..i] + data[i..j] == data[..j]
    ensures data[i..j][..j - i] == data[i..j]
  {
  }

  lemma AdvanceIs(s: Sender, mtu: Mtu)
    ensures Advance(s, mtu).offset == PayloadEnd(s, mtu) && Advance(s, mtu).data == s.data
    ensures PayloadEnd(s, mtu) != |s.data| ==> FillsChunk(s, mtu)
  {
  }

  lemma PayloadInside(s: Sender, mtu: Mtu)
    requires Sending(s, mtu)
    ensures s.offset <= PayloadEnd(s, mtu) <= |s.data|
  {
  }

  lemma ChunkTaken(s: Sender, r: Receiver, channel: seq<byte>, mtu: Mtu)
    requires InStep(s, r, mtu) && |channel| == 2
    ensures Kept(Advance(s, mtu), r, Receive(r, NextChunk(s, channel, mtu)), mtu)
  {
    assert Level(s, r);
    PayloadInside(s, mtu);
    hide Receive, NextChunk, Store, PayloadEnd, Advance, Kept;
    ChunkStored(s, r, channel, mtu);
    DataStored(s, r, mtu);
  }

  lemma ChunkStored(s: Sender, r: Receiver, channel: seq<byte>, mtu: Mtu)
    requires InStep(s, r, mtu) && |channel| == 2
    ensures Receive(r, NextChunk(s, channel, mtu)) == Store(r, s.data[s.offset..PayloadEnd(s, mtu)])
  {
    var c, e := NextChunk(s, channel, mtu), PayloadEnd(s, mtu);
    assert U2BE(c[3..], 0) == s.seqNo;
    assert c[3..][2..] == s.data[s.offset..e];
    hide NextChunk, U2BE, Store;
  }

  lemma FirstChunkTaken(apdu: seq<byte>, r: Receiver, channel: seq<byte>, mtu: Mtu)
    requires Consistent(r) && r.seqNo == 0 && |apdu| <= r.maxLength && |channel| == 2
    ensures |apdu| <= |r.mem| && |apdu| < 0x1_0000
    ensures Kept(Advance(Start(apdu), mtu), r, Receive(r, NextChunk(Start(apdu), channel, mtu)), mtu)
  {
    var s := Start(apdu);
    PayloadInside(s, mtu);
    var c, e := NextChunk(s, channel, mtu), PayloadEnd(s, mtu);
    assert U2BE(c[3..], 0) == 0 && U2BE(c[3..], 2) == |apdu|;
    assert c[3..][4..] == apdu[..e];
    hide NextChunk, U2BE, PayloadEnd, Store;
    var r1 := Announced(r, c[3..]);
    assert Receive(r, c) == Store(r1, apdu[..e]);
    DataStored(s, r1, mtu);
  }

  /** Whether n bytes are whole chunks of d bytes. */
  predicate Whole(n: int, d: nat) { d > 0 && n >= 0 && n % d == 0 }

  lemma WholeStep(n: nat, d: nat)
    requires d > 0
    ensures Whole(n + d, d) <==> Whole(n, d)
    ensures Whole(0, d) && (0 < n < d ==> !Whole(n, d))
  {
    var q := n / d;
    assert n == d * q + n % d;
    assert d * q + d == (q + 1) * d;
    N.DivModUnique(q + 1, n % d, d);
    if n < d { N.DivModUnique(0, n, d); }
  }

  /** Exactly the APDUs whose data ends where a chunk ends leave a chunk without data to be sent. */
  predicate LeavesTrailing(n: nat, mtu: Mtu) {
    Whole(n - (mtu - 7), mtu - 5)
  }

  /** The chunks with data bring the rest of the APDU; a trailing chunk may follow. */
  ghost predicate Delivers(cs: seq<seq<byte>>, r: Receiver, apdu: seq<byte>, trailing: bool)
    requires Consistent(r) && |apdu| <= |r.mem| && |apdu| < 0x1_0000
  {
    var k := |cs| - if trailing then 1 else 0;
    && k > 0 && Feed(r, cs[..k]) == (Delivered(r, apdu), Statuses(k))
    && (trailing ==> Trailing(cs[k]))
  }

  lemma TrailingChunk(s: Sender, channel: seq<byte>, mtu: Mtu)
    requires Sending(s, mtu) && s.offset == |s.data| && s.seqNo > 0 && |channel| == 2
    ensures var cs := Chunks(s, channel, mtu);
      |cs| == 1 && Trailing(cs[0])
  {
  }

  lemma OneMore(r: Receiver, c: seq<byte>, cs: seq<seq<byte>>, apdu: seq<byte>, trailing: bool)
    requires Consistent(r) && |apdu| <= |r.mem| && |apdu| < 0x1_0000
    requires var r1 := Receive(r, c);
      && r1.status == NeedMoreData && Consistent(r1) && r1.maxLength == r.maxLength && |r1.mem| == |r.mem|
      && r1.mem[|apdu|..] == r.mem[|apdu|..] && Delivers(cs, r1, apdu, trailing)
    ensures Delivers([c] + cs, r, apdu, trailing)
  {
    hide Receive, Consistent, Trailing;
    var all := [c] + cs;
    var k := |cs| - if trailing then 1 else 0;
    assert all[..k + 1][0] == c && all[..k + 1][1..] == cs[..k];
    assert Statuses(k + 1) == [NeedMoreData] + Statuses(k);
  }

  lemma LastOne(r: Receiver, c: seq<byte>, cs: seq<seq<byte>>, apdu: seq<byte>)
    requires Consistent(r) && |apdu| <= |r.mem| && |apdu| < 0x1_0000
    requires Receive(r, c) == Delivered(r, apdu) && (cs == [] || (|cs| == 1 && Trailing(cs[0])))
    ensures Delivers([c] + cs, r, apdu, cs != [])
  {
    hide Receive, Consistent, Trailing;
    ReceiveKeepsConsistent(r, c);
    assert ([c] + cs)[..1] == [c];
    assert [c][0] == c && [c][1..] == [];
    var r1 := Receive(r, c);
    assert Feed(r1, []) == (r1, []);
    assert Feed(r, [c]) == (r1, [r1.status] + []);
    assert Statuses(1) == [Complete] + [];
    assert cs != [] ==> ([c] + cs)[1] == cs[0];
  }

  /** Where the next chunk ends. */
  lemma ChunkEnd(s: Sender, mtu: Mtu)
    requires Sending(s, mtu) && s.seqNo > 0
    ensures var e := Advance(s, mtu).offset;
      && s.offset <= e <= |s.data| && Advance(s, mtu).data == s.data
      && (if FillsChunk(s, mtu) then e == s.offset + (mtu - 5) else |s.data| - s.offset < mtu - 5 && e == |s.data|)
      && (FillsChunk(s, mtu) ==> Advance(s, mtu).seqNo > 0)
  {
    AdvanceKeepsSending(s, mtu);
  }

  lemma {:induction false} RestReassembled(s: Sender, r: Receiver, channel: seq<byte>, mtu: Mtu)
    requires InStep(s, r, mtu) && |channel| == 2 && s.offset < |s.data| <= |r.mem|
    ensures Delivers(Chunks(s, channel, mtu), r, s.data, Whole(|s.data| - s.offset, mtu - 5))
    decreases |s.data| - s.offset
  {
    hide *;
    InStepIs(s, r, mtu);
    ChunksUnfold(s, channel, mtu);
    ChunkEnd(s, mtu);
    var c, s1 := NextChunk(s, channel, mtu), Advance(s, mtu);
    var left, d := |s.data| - s.offset, mtu - 5;
    ChunkTaken(s, r, channel, mtu);
    KeptIs(s1, r, Receive(r, c), mtu);
    WholeStep(left, d);
    WholeStep(0, d);
    if s1.offset < |s.data| {
      InStepIs(s1, Receive(r, c), mtu);
      RestReassembled(s1, Receive(r, c), channel, mtu);
      WholeStep(left - d, d);
      OneMore(r, c, Chunks(s1, channel, mtu), s.data, Whole(left, d));
    } else if FillsChunk(s, mtu) {
      TrailingChunk(s1, channel, mtu);
      LastOne(r, c, Chunks(s1, channel, mtu), s.data);
    } else {
      LastOne(r, c, [], s.data);
    }
  }

  lemma ChunksUnfold(s: Sender, channel: seq<byte>, mtu: Mtu)
    requires Sending(s, mtu)
    ensures FillsChunk(s, mtu) ==> Sending(Advance(s, mtu), mtu)
    ensures Chunks(s, channel, mtu) ==
      [NextChunk(s, channel, mtu)] + if FillsChunk(s, mtu) then Chunks(Advance(s, mtu), channel, mtu) else []
  {
    AdvanceKeepsSending(s, mtu);
  }

  lemma OneChunkLess(left: nat, d: nat)
    requires d >= 2
    ensures left < d ==> left / d == 0
    ensures left >= d ==> left / d == 1 + (left - d) / d
  {
    var q, r := left / d, left % d;
    assert left == q * d + r;
    if left >= d {
      assert q > 0 && (q - 1) * d == q * d - d;
      N.DivModUnique(q - 1, r, d);
    } else {
      N.DivModUnique(0, left, d);
    }
  }

  lemma {:induction false} LaterChunks(s: Sender, channel: seq<byte>, mtu: Mtu)
    requires Sending(s, mtu) && s.seqNo > 0
    ensures |Chunks(s, channel, mtu)| == 1 + (|s.data| - s.offset) / (mtu - 5)
    decreases |s.data| - s.offset
  {
    ChunkEnd(s, mtu);
    ChunksUnfold(s, channel, mtu);
    OneChunkLess(|s.data| - s.offset, mtu - 5);
    hide Chunks, NextChunk, Sending, Advance, FillsChunk;
    if FillsChunk(s, mtu) {
      FillsMeans(s, mtu);
      LaterChunks(Advance(s, mtu), channel, mtu);
    } else {
      FillsMeans(s, mtu);
    }
  }

  lemma FillsMeans(s: Sender, mtu: Mtu)
    ensures FillsChunk(s, mtu) <==> |s.data| - s.offset >= mtu - if s.seqNo == 0 then 7 else 5
  {
  }

  /** How many chunks an APDU takes: mtu - 7 bytes go into the first one and mtu - 5 into each of the others, and the
      last one is not full, but perhaps without data. */
  lemma ChunkCount(apdu: seq<byte>, channel: seq<byte>, mtu: nat)
    requires |apdu| < 0x1_0000 && 7 <= mtu <= 158
    ensures |Chunks(Start(apdu), channel, mtu)| ==
      if |apdu| < mtu - 7 then 1 else 2 + (|apdu| - (mtu - 7)) / (mtu - 5)
  {
    var s := Start(apdu);
    ChunksUnfold(s, channel, mtu);
    FillsMeans(s, mtu);
    AdvanceKeepsSending(s, mtu);
    if FillsChunk(s, mtu) {
      assert Advance(s, mtu).offset == mtu - 7 && Advance(s, mtu).seqNo == 1 && Advance(s, mtu).data == apdu;
      hide Chunks, Advance;
      LaterChunks(Advance(s, mtu), channel, mtu);
    }
  }

  lemma FitsMemory(r: Receiver, apdu: seq<byte>)
    requires Consistent(r) && |apdu| <= r.maxLength
    ensures |apdu| <= |r.mem| && |apdu| < 0x1_0000
  {
  }

  lemma FirstChunkEnd(apdu: seq<byte>, mtu: Mtu)
    requires |apdu| < 0x1_0000
    ensures Sending(Start(apdu), mtu)
    ensures var s, s1 := Start(apdu), Advance(Start(apdu), mtu);
      && s1.data == apdu && s.offset == 0 <= |s.data| && (FillsChunk(s, mtu) ==> s1.seqNo == 1)
      && (s1.offset < |apdu| ==>
            FillsChunk(s, mtu) && (LeavesTrailing(|apdu|, mtu) <==> Whole(|apdu| - s1.offset, mtu - 5)))
      && (s1.offset >= |apdu| ==> s1.offset == |apdu| && (LeavesTrailing(|apdu|, mtu) <==> FillsChunk(s, mtu)))
  {
    WholeStep(0, mtu - 5);
  }

  /** Every APDU, the empty one included, that the receiver can hold arrives: all chunks with data but the last
      ask for more and the last completes the APDU, which then is in the buffer; and a chunk without data follows
      exactly if the data ends where a chunk ends. */
  lemma Reassembly(apdu: seq<byte>, r: Receiver, channel: seq<byte>, mtu: Mtu)
    requires Consistent(r) && r.seqNo == 0 && |apdu| <= r.maxLength && |channel| == 2
    ensures Delivers(Chunks(Start(apdu), channel, mtu), r, apdu, LeavesTrailing(|apdu|, mtu))
  {
    hide *;
    FirstChunkEnd(apdu, mtu);
    FirstChunkTaken(apdu, r, channel, mtu);
    KeptIs(Advance(Start(apdu), mtu), r, Receive(r, NextChunk(Start(apdu), channel, mtu)), mtu);
    if Advance(Start(apdu), mtu).offset == |apdu| {
      OnlyFirstChunk(apdu, r, channel, mtu);
    } else {
      MoreThanFirstChunk(apdu, r, channel, mtu);
    }
  }

  lemma MoreThanFirstChunk(apdu: seq<byte>, r: Receiver, channel: seq<byte>, mtu: Mtu)
    requires Consistent(r) && |apdu| <= r.maxLength && |channel| == 2
    requires var s1 := Advance(Start(apdu), mtu);
      var r1 := Receive(r, NextChunk(Start(apdu), channel, mtu));
      && s1.offset < |apdu| && r1.status == NeedMoreData && InStep(s1, r1, mtu)
      && r1.mem[|apdu|..] == r.mem[|apdu|..] && r1.maxLength == r.maxLength && |r1.mem| == |r.mem|
    ensures Delivers(Chunks(Start(apdu), channel, mtu), r, apdu, LeavesTrailing(|apdu|, mtu))
  {
    hide *;
    FitsMemory(r, apdu);
    FirstChunkEnd(apdu, mtu);
    var s := Start(apdu);
    var c, s1 := NextChunk(s, channel, mtu), Advance(s, mtu);
    ReceiveKeepsConsistent(r, c);
    ChunksUnfold(s, channel, mtu);
    RestReassembled(s1, Receive(r, c), channel, mtu);
    OneMore(r, c, Chunks(s1, channel, mtu), apdu, LeavesTrailing(|apdu|, mtu));
  }

  /** The case that the first chunk holds all the data. */
  lemma OnlyFirstChunk(apdu: seq<byte>, r: Receiver, channel: seq<byte>, mtu: Mtu)
    requires Consistent(r) && |apdu| <= r.maxLength && |apdu| <= |r.mem| && |apdu| < 0x1_0000 && |channel| == 2
    requires Advance(Start(apdu), mtu).offset == |apdu| && Sending(Start(apdu), mtu)
    requires Receive(r, NextChunk(Start(apdu), channel, mtu)) == Delivered(r, apdu)
    requires LeavesTrailing(|apdu|, mtu) <==> FillsChunk(Start(apdu), mtu)
    ensures Delivers(Chunks(Start(apdu), channel, mtu), r, apdu, LeavesTrailing(|apdu|, mtu))
  {
    hide *;
    FitsMemory(r, apdu);
    FirstChunkEnd(apdu, mtu);
    var s := Start(apdu);
    var c, s1 := NextChunk(s, channel, mtu), Advance(s, mtu);
    ChunksUnfold(s, channel, mtu);
    if FillsChunk(s, mtu) {
      TrailingChunk(s1, channel, mtu);
      LastOne(r, c, Chunks(s1, channel, mtu), apdu);
    } else {
      LastOne(r, c, [], apdu);
    }
  }

  /** The trailing chunk costs the receiver its status, and nothing else: a peer that looks at the status only
      behind the last chunk sees a complete APDU exactly if there is no trailing chunk. */
  lemma StatusAtTheEnd(apdu: seq<byte>, r: Receiver, channel: seq<byte>, mtu: Mtu)
    requires Consistent(r) && r.seqNo == 0 && |apdu| <= r.maxLength && |channel| == 2
    ensures var r' := Feed(r, Chunks(Start(apdu), channel, mtu)).0;
      && r'.(status := Complete) == Delivered(r, apdu)
      && r'.status == (if LeavesTrailing(|apdu|, mtu) then Waiting else Complete)
  {
    var cs := Chunks(Start(apdu), channel, mtu);
    assert |apdu| <= |r.mem| && |apdu| < 0x1_0000 && Delivered(r, apdu).status == Complete;
    hide *;
    Reassembly(apdu, r, channel, mtu);
    AtTheEnd(cs, r, apdu, LeavesTrailing(|apdu|, mtu));
  }

  lemma AtTheEnd(cs: seq<seq<byte>>, r: Receiver, apdu: seq<byte>, trailing: bool)
    requires Consistent(r) && |apdu| <= |r.mem| && |apdu| < 0x1_0000 && Delivers(cs, r, apdu, trailing)
    ensures Feed(r, cs).0 == Delivered(r, apdu).(status := if trailing then Waiting else Complete)
  {
    hide Feed, Trailing, Receive;
    if trailing {
      var k := |cs| - 1;
      assert cs == cs[..k] + [cs[k]];
      FeedLast(r, cs[..k], cs[k]);
      TrailingRefused(Delivered(r, apdu), cs[k]);
    } else {
      assert cs[..|cs|] == cs;
    }
  }

  lemma TrailingRefused(r: Receiver, c: seq<byte>)
    requires Consistent(r) && r.seqNo == 0 && Trailing(c)
    ensures Receive(r, c) == r.(status := Waiting)
  {
    assert U2BE(c, 3) == U2BE(c[3..], 0);
  }

  lemma {:induction false} FeedLast(r: Receiver, cs: seq<seq<byte>>, c: seq<byte>)
    requires Consistent(r)
    ensures Consistent(Feed(r, cs).0) && Feed(r, cs + [c]).0 == Receive(Feed(r, cs).0, c)
    decreases |cs|
  {
    hide Receive, Consistent;
    if cs == [] {
      assert cs + [c] == [c];
      ReceiveKeepsConsistent(r, c);
    } else {
      ReceiveKeepsConsistent(r, cs[0]);
      assert (cs + [c])[0] == cs[0] && (cs + [c])[1..] == cs[1..] + [c];
      FeedLast(Receive(r, cs[0]), cs[1..], c);
    }
  }
}
