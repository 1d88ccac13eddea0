/** The TLV encoder of install_params.py, and what the parser of src/os.c makes of its output. */
module TlvEncoding {
  import opened CTypes
  import opened BerTlv
  import N = Numerals

  // ------------------------------------------------------------------ the encoder

  /** encodelv; None is the exception. */
  function EncodeLv(value: seq<byte>): Option<seq<byte>> {
    var n := |value|;
    if n < 128 then Some([n as byte] + value)
    else if n < 256 then Some([0x81, n as byte] + value)
    else if n < 65536 then Some([0x82, (n / 256) as byte, (n % 256) as byte] + value)
    else None
  }

  /** encodetlv; a tag that is not one byte cannot be packed. */
  function EncodeTlv(tag: int, value: seq<byte>): Option<seq<byte>> {
    if !(0 <= tag < 256) || EncodeLv(value).None? then None else Some([tag as byte] + EncodeLv(value).value)
  }

  datatype Record = Record(tag: byte, value: seq<byte>)

  predicate Encodable(recs: seq<Record>) {
    forall r :: r in recs ==> |r.value| < 65536
  }

  function Encoded(r: Record): seq<byte>
    requires |r.value| < 65536
  {
    EncodeTlv(r.tag, r.value).value
  }

  /** A list of records as one string of bytes. */
  function Serialise(recs: seq<Record>): seq<byte>
    requires Encodable(recs)
  {
    if recs == [] then [] else Encoded(recs[0]) + Serialise(recs[1..])
  }

  function HeaderSize(r: Record): nat {
    if |r.value| < 128 then 2 else if |r.value| < 256 then 3 else 4
  }

  /** The encoder fails exactly on tags of more than a byte and on values of 65536 bytes or more. */
  lemma EncoderDomain(tag: int, value: seq<byte>)
    ensures EncodeTlv(tag, value).Some? <==> 0 <= tag < 256 && |value| < 65536
  {
  }

  /** The length is written in the shortest form: in one byte up to 127, otherwise as its base-256 digits behind their
      number plus 128. */
  lemma ShortestLength(tag: byte, value: seq<byte>)
    requires |value| < 65536
    ensures var n := |value|;
      var ds := N.Digits(n, 256);
      EncodeTlv(tag, value).value ==
        [tag] + (if n < 128 then [n] else [128 + |ds|] + ds) + value
  {
    var n := |value|;
    if n >= 256 {
      TwoDigits(n);
    } else if n >= 128 {
      OneDigit(n);
    }
    hide N.Digits;
  }

  lemma OneDigit(n: nat)
    requires 0 < n < 256
    ensures N.Digits(n, 256) == [n]
  {
    assert N.Digits(0, 256) == [];
  }

  lemma TwoDigits(n: nat)
    requires 256 <= n < 65536
    ensures N.Digits(n, 256) == [n / 256, n % 256]
  {
    OneDigit(n / 256);
  }

  lemma EncodedSize(r: Record)
    requires |r.value| < 65536
    ensures |Encoded(r)| == HeaderSize(r) + |r.value| && Encoded(r)[0] == r.tag
    ensures Encoded(r)[HeaderSize(r)..] == r.value
  {
  }

  // ------------------------------------------------------------------ the parser on one record

  /** The parser reads back the header of every record, except that of an empty value at the very end. */
  lemma HeaderRead(pre: seq<byte>, r: Record, rest: seq<byte>)
    requires |r.value| < 65536
    ensures var mem := pre + Encoded(r) + rest;
      && mem[|pre|] == r.tag
      && ValueOf(mem, |pre|) ==
           (if r.value == [] && rest == [] then None else Some(Hit(|pre| + HeaderSize(r), |r.value|)))
      && mem[|pre| + HeaderSize(r)..|pre| + HeaderSize(r) + |r.value|] == r.value
  {
    var mem, p, n, e := pre + Encoded(r) + rest, |pre|, |r.value|, Encoded(r);
    EncodedSize(r);
    assert mem[p..p + |e|] == e;
    assert mem[p + 1] == e[1];
    if n >= 256 {
      assert mem[p + 2..p + 4] == [e[2], e[3]];
      ShiftedTwo(e[2], e[3]);
    } else if n >= 128 {
      assert mem[p + 2..p + 3] == [e[2]];
      ShiftedOne(e[2]);
    }
    assert mem[p + HeaderSize(r)..p + |e|] == e[HeaderSize(r)..];
  }

  lemma ShiftedOne(x: byte)
    ensures Shifted([x]) == x
  {
    assert [x][..0] == [];
    assert Shifted([]) == 0;
  }

  lemma ShiftedTwo(x: byte, y: byte)
    ensures Shifted([x, y]) == 256 * x + y
  {
    assert [x, y][..1] == [x];
    ShiftedOne(x);
  }

  // ------------------------------------------------------------------ the parser on a list of records

  /** The index of the first record with the tag, or the number of records. */
  function FirstIndex(recs: seq<Record>, tag: byte): (i: nat)
    ensures i <= |recs| && (i < |recs| ==> recs[i].tag == tag) && forall j :: 0 <= j < i ==> recs[j].tag != tag
  {
    if recs == [] || recs[0].tag == tag then 0 else 1 + FirstIndex(recs[1..], tag)
  }

  /** What a search over recs, written behind pre, should find: the first record with the tag, unless that is
      an empty value at the very end. */
  function Expected(pre: nat, recs: seq<Record>, tag: byte): Option<Hit>
    requires Encodable(recs)
  {
    var i := FirstIndex(recs, tag);
    if i == |recs| || (i == |recs| - 1 && recs[i].value == []) then None
    else Some(Hit(pre + |Serialise(recs[..i])| + HeaderSize(recs[i]), |recs[i].value|))
  }

  /** The search goes from record to record. */
  lemma ExpectedStep(pre: nat, recs: seq<Record>, tag: byte)
    requires Encodable(recs)
    ensures Expected(pre, recs, tag) ==
      if recs == [] then None
      else if recs[0].tag != tag then Expected(pre + |Encoded(recs[0])|, recs[1..], tag)
      else if recs[0].value == [] && recs[1..] == [] then None
      else Some(Hit(pre + HeaderSize(recs[0]), |recs[0].value|))
  {
    if recs != [] {
      if recs[0].tag == tag {
        assert recs[..0] == [];
      } else {
        var i := FirstIndex(recs[1..], tag);
        assert FirstIndex(recs, tag) == i + 1;
        assert recs[..i + 1][0] == recs[0] && recs[..i + 1][1..] == recs[1..][..i];
        assert |Serialise(recs[..i + 1])| == |Encoded(recs[0])| + |Serialise(recs[1..][..i])|;
      }
    }
  }

  lemma SerialiseStep(recs: seq<Record>)
    requires Encodable(recs)
    ensures Serialise(recs) == if recs == [] then [] else Encoded(recs[0]) + Serialise(recs[1..])
  {
  }

  /** The search at a record. */
  lemma SearchAt(mem: seq<byte>, pre: seq<byte>, r: Record, rest: seq<byte>, tag: byte, from: nat, seen: Option<nat>)
    requires |r.value| < 65536 && mem == pre + Encoded(r) + rest
    ensures var pos := |pre| + HeaderSize(r);
      Find(mem, tag, from, |pre|, seen) ==
        if r.value == [] && rest == [] then Found(None, seen)
        else if r.tag == tag && from <= pos then Found(Some(Hit(pos, |r.value|)), Some(pos))
        else Find(mem, tag, from, |pre| + |Encoded(r)|, if r.tag == tag then Some(pos) else seen)
  {
    hide Find, ValueOf, Encoded;
    EncodedSize(r);
    HeaderRead(pre, r, rest);
    FindStep(mem, tag, from, |pre|, seen);
  }

  lemma {:induction false} FindFirst(mem: seq<byte>, pre: seq<byte>, recs: seq<Record>, tag: byte, from: nat,
                                     seen: Option<nat>)
    requires Encodable(recs) && from <= |pre| && mem == pre + Serialise(recs)
    ensures Find(mem, tag, from, |pre|, seen).hit == Expected(|pre|, recs, tag)
    decreases |recs|
  {
    hide *;
    SerialiseStep(recs);
    ExpectedStep(|pre|, recs, tag);
    if recs == [] {
      FindStep(mem, tag, from, |pre|, seen);
    } else {
      var r, rest := recs[0], recs[1..];
      RestEncodable(recs);
      SerialiseEmpty(rest);
      var pre' := pre + Encoded(r);
      assert mem == pre' + Serialise(rest);
      SearchAt(mem, pre, r, Serialise(rest), tag, from, seen);
      if r.tag != tag {
        ExpectedStep(|pre'|, rest, tag);
        FindFirst(mem, pre', rest, tag, from, seen);
      }
    }
  }

  lemma RestEncodable(recs: seq<Record>)
    requires Encodable(recs) && recs != []
    ensures |recs[0].value| < 65536 && Encodable(recs[1..])
  {
  }

  lemma SerialiseEmpty(recs: seq<Record>)
    requires Encodable(recs)
    ensures Serialise(recs) == [] <==> recs == []
    ensures recs != [] ==> |Serialise(recs)| >= 2
  {
    if recs != [] { EncodedSize(recs[0]); }
  }

  lemma {:induction false} SerialiseConcat(a: seq<Record>, b: seq<Record>)
    requires Encodable(a) && Encodable(b)
    ensures Encodable(a + b) && Serialise(a + b) == Serialise(a) + Serialise(b)
    decreases |a|
  {
    if a == [] {
      assert a + b == b;
    } else {
      assert (a + b)[0] == a[0] && (a + b)[1..] == a[1..] + b;
      SerialiseConcat(a[1..], b);
      assert Encoded(a[0]) + (Serialise(a[1..]) + Serialise(b)) == (Encoded(a[0]) + Serialise(a[1..])) + Serialise(b);
    }
  }

  /** The values with the tag, in order. */
  function Occurrences(recs: seq<Record>, tag: byte): seq<seq<byte>> {
    if recs == [] then []
    else (if recs[0].tag == tag then [recs[0].value] else []) + Occurrences(recs[1..], tag)
  }

  lemma {:induction false} FirstOccurrence(recs: seq<Record>, tag: byte)
    ensures var i := FirstIndex(recs, tag);
      Occurrences(recs, tag) == if i == |recs| then [] else [recs[i].value] + Occurrences(recs[i + 1..], tag)
    decreases |recs|
  {
    if recs != [] && recs[0].tag != tag {
      FirstOccurrence(recs[1..], tag);
      var i := FirstIndex(recs[1..], tag);
      if i < |recs| - 1 { assert recs[1..][i + 1..] == recs[i + 2..]; }
    }
  }

  /** The bytes of a record that has been found. */
  lemma ValueFound(recs: seq<Record>, i: nat)
    requires Encodable(recs) && i < |recs|
    ensures var start := |Serialise(recs[..i])| + HeaderSize(recs[i]);
      && start + |recs[i].value| == |Serialise(recs[..i + 1])| <= |Serialise(recs)|
      && Serialise(recs)[start..start + |recs[i].value|] == recs[i].value
  {
    hide *;
    SerialiseSplit(recs, i);
    EncodedSize(recs[i]);
    Middle(Serialise(recs), Serialise(recs[..i]), Encoded(recs[i]), Serialise(recs[i + 1..]), HeaderSize(recs[i]));
  }

  lemma SerialiseSplit(recs: seq<Record>, i: nat)
    requires Encodable(recs) && i < |recs|
    ensures Encodable(recs[..i]) && Encodable(recs[..i + 1]) && Encodable(recs[i + 1..]) && |recs[i].value| < 65536
    ensures Serialise(recs) == Serialise(recs[..i]) + (Encoded(recs[i]) + Serialise(recs[i + 1..]))
    ensures Serialise(recs[..i + 1]) == Serialise(recs[..i]) + Encoded(recs[i])
  {
    SerialiseConcat(recs[..i], recs[i..]);
    SerialiseConcat(recs[..i], [recs[i]]);
    SerialiseStep(recs[i..]);
    SerialiseStep([recs[i]]);
    SerialiseEmpty([]);
    hide Serialise, Encoded;
    assert recs[..i] + recs[i..] == recs && recs[..i] + [recs[i]] == recs[..i + 1];
    assert recs[i..][0] == recs[i] && recs[i..][1..] == recs[i + 1..];
    assert [recs[i]][1..] == [];
    assert Encoded(recs[i]) + [] == Encoded(recs[i]);
  }

  lemma Middle(s: seq<byte>, pre: seq<byte>, e: seq<byte>, rest: seq<byte>, k: nat)
    requires s == pre + (e + rest) && k <= |e|
    ensures |pre| + |e| <= |s| && s[|pre| + k..|pre| + |e|] == e[k..]
  {
  }

  /** A value inside the memory is refused only for the request's own offset, or for its size when comparing. */
  lemma UsedInside(mem: seq<byte>, h: Hit, q: Request)
    requires h.pos + h.len <= |mem|
    ensures Used(mem, h, q) ==
      if q.Skip() > h.len || (q.Compare() && h.len - q.Skip() != q.maxLength) then None
      else Some(Min(q.maxLength, h.len - q.Skip()))
  {
  }

  /** The value of the first record with the tag; an empty value at the very end is not seen. */
  function FirstValue(recs: seq<Record>, tag: byte): Option<seq<byte>> {
    var i := FirstIndex(recs, tag);
    if i == |recs| || (i == |recs| - 1 && recs[i].value == []) then None else Some(recs[i].value)
  }

  /** FirstValue is the value at the place where the search should end. */
  lemma ExpectedIsFirstValue(mem: seq<byte>, recs: seq<Record>, tag: byte)
    requires Encodable(recs) && mem == Serialise(recs)
    ensures var e, v := Expected(0, recs, tag), FirstValue(recs, tag);
      if v.None? then e.None?
      else e.Some? && e.value.pos + e.value.len <= |mem| && mem[e.value.pos..e.value.pos + e.value.len] == v.value
  {
    var i := FirstIndex(recs, tag);
    if i < |recs| {
      hide Serialise, HeaderSize;
      ValueFound(recs, i);
    }
  }

  /** There is a place for the answer: bytes to copy to or to compare with, or, when an address is asked for, any
      pointer. */
  predicate Served(q: Request) { q.target.Target? || (q.target.NullTarget? && q.Get()) }

  /** The answer to a request when v is the value that it is about. */
  ghost predicate Answers(o: Outcome, v: seq<byte>, q: Request)
    requires Served(q) && (q.Get() || q.maxLength <= |q.target.bytes|)
  {
    var skip := q.Skip();
    if skip > |v| || (q.Compare() && |v| - skip != q.maxLength) then o.ret == 0 && o.copied == [] && o.address == None
    else if q.Get() then o.ret == |v| - skip && o.copied == [] && o.address.Some?
    else if q.Compare() then
      o.ret == (if q.target.bytes[..q.maxLength] == v[skip..] then 1 else 0) && o.copied == [] && o.address == None
    else o.ret == Min(q.maxLength, |v| - skip) && o.copied == v[skip..skip + o.ret] && o.address == None
  }

  /** An address handed out is that of the rest of the value. */
  ghost predicate PointsInto(mem: seq<byte>, o: Outcome, v: seq<byte>, skip: nat) {
    o.address.Some? ==>
      skip <= |v| && o.address.value + o.ret <= |mem| && mem[o.address.value..o.address.value + o.ret] == v[skip..]
  }

  lemma UseAnswers(mem: seq<byte>, h: Hit, q: Request, tlvOffset: Option<nat>)
    requires Acceptable(mem, q) && Served(q) && h.pos + h.len <= |mem|
    ensures var o, v := Use(mem, h, q, tlvOffset), mem[h.pos..h.pos + h.len];
      Answers(o, v, q) && PointsInto(mem, o, v, q.Skip())
  {
    hide *;
    UsedInside(mem, h, q);
    var used := Used(mem, h, q);
    if used.None? {
      RefusedAnswer(mem, h, q, tlvOffset);
    } else {
      var n, v := used.value, mem[h.pos..h.pos + h.len];
      SubSlice(mem, h.pos, h.len, q.Skip(), h.len - q.Skip());
      MinBounds(q.maxLength, h.len - q.Skip());
      SubSlice(mem, h.pos, h.len, q.Skip(), n);
      GivenAnswer(mem, h, q, tlvOffset, v, n);
    }
  }

  lemma MinBounds(x: nat, y: nat)
    ensures 0 <= Min(x, y) <= y && Min(x, y) <= x
  {
  }

  lemma RefusedAnswer(mem: seq<byte>, h: Hit, q: Request, tlvOffset: Option<nat>)
    requires Acceptable(mem, q) && Served(q) && h.pos + h.len <= |mem| && Used(mem, h, q).None?
    ensures var o, v := Use(mem, h, q, tlvOffset), mem[h.pos..h.pos + h.len];
      Answers(o, v, q) && PointsInto(mem, o, v, q.Skip())
  {
    UsedInside(mem, h, q);
    hide Used;
  }

  lemma GivenAnswer(mem: seq<byte>, h: Hit, q: Request, tlvOffset: Option<nat>, v: seq<byte>, n: nat)
    requires Acceptable(mem, q) && Served(q) && h.pos + h.len <= |mem| && Used(mem, h, q) == Some(n)
    requires |v| == h.len && q.Skip() <= |v| && n == Min(q.maxLength, |v| - q.Skip())
    requires v[q.Skip()..] == mem[h.pos + q.Skip()..h.pos + h.len]
    requires q.Skip() + n <= |v| && v[q.Skip()..q.Skip() + n] == mem[h.pos + q.Skip()..h.pos + q.Skip() + n]
    ensures var o := Use(mem, h, q, tlvOffset);
      Answers(o, v, q) && PointsInto(mem, o, v, q.Skip())
  {
    UsedInside(mem, h, q);
    hide Used, Acceptable, Request.Skip, Request.Compare, Request.Get;
  }

  lemma SubSlice(mem: seq<byte>, pos: nat, len: nat, skip: nat, n: nat)
    requires pos + len <= |mem| && skip + n <= len
    ensures mem[pos..pos + len][skip..skip + n] == mem[pos + skip..pos + skip + n]
    ensures skip + n == len ==> mem[pos..pos + len][skip..] == mem[pos + skip..pos + skip + n]
  {
    var v := mem[pos..pos + len];
    var a, b := v[skip..skip + n], mem[pos + skip..pos + skip + n];
    assert forall i :: 0 <= i < n ==> a[i] == v[skip + i] == mem[pos + (skip + i)] == b[i];
    if skip + n == len { assert v[skip..] == v[skip..skip + n]; }
  }

  lemma NothingReported(seen: Option<nat>)
    ensures Reported(None, seen) == None
  {
  }

  lemma ParseByHit(mem: seq<byte>, q: Request)
    requires Acceptable(mem, q) && Served(q)
    ensures var from := if q.tlvOffset.Some? then q.tlvOffset.value else 0;
      var Found(h, seen) := Find(mem, q.LowTag(), from, 0, None);
      && (h.None? ==> Parse(mem, q) == Outcome(0, [], None, Reported(q.tlvOffset, seen)))
      && (h.Some? ==> h.value.pos < |mem| && Parse(mem, q) == Use(mem, h.value, q, Reported(q.tlvOffset, seen)))
  {
    var from := if q.tlvOffset.Some? then q.tlvOffset.value else 0;
    FindBounds(mem, q.LowTag(), from, 0, None);
  }

  /** A request about a list of records is answered from the first record with its tag. */
  lemma FirstRecordAnswers(mem: seq<byte>, recs: seq<Record>, q: Request)
    requires Encodable(recs) && mem == Serialise(recs) && Served(q) && Acceptable(mem, q) && q.tlvOffset == None
    ensures var o, v := Parse(mem, q), FirstValue(recs, q.LowTag());
      && (v.None? ==> o == Outcome(0, [], None, None))
      && (v.Some? ==> Answers(o, v.value, q) && PointsInto(mem, o, v.value, q.Skip()))
  {
    var low: byte := q.LowTag();
    hide *;
    ParseByHit(mem, q);
    assert mem == [] + Serialise(recs);
    FindFirst(mem, [], recs, low, 0, None);
    ExpectedIsFirstValue(mem, recs, low);
    var Found(h, seen) := Find(mem, low, 0, 0, None);
    NothingReported(seen);
    if h.Some? {
      UseAnswers(mem, h.value, q, None);
    }
  }

  /** A request without a place for the answer, or about no memory at all, is not looked at. */
  lemma NotServed(mem: seq<byte>, q: Request)
    requires Acceptable(mem, q) && (mem == [] || !Served(q))
    ensures Parse(mem, q) == Outcome(0, [], None, q.tlvOffset)
  {
  }

  /** When an address is asked for, it does not matter where the pointer has pointed to. */
  lemma PointerDoesNotMatter(mem: seq<byte>, q: Request, bytes: seq<byte>)
    requires q.Get() && q.target.NullTarget? && Acceptable(mem, q)
    ensures Acceptable(mem, q.(target := Target(bytes)))
    ensures Parse(mem, q) == Parse(mem, q.(target := Target(bytes)))
  {
    var q' := q.(target := Target(bytes));
    assert q'.Get() && q'.Skip() == q.Skip() && q'.LowTag() == q.LowTag();
    ParseByHit(mem, q);
    ParseByHit(mem, q');
    var from := if q.tlvOffset.Some? then q.tlvOffset.value else 0;
    var h := Find(mem, q.LowTag(), from, 0, None).hit;
    hide Find, Parse;
    if h.Some? {
      assert Used(mem, h.value, q) == Used(mem, h.value, q');
    }
  }

  /** What is stored as the TLV offset, if there is a place to store it: where the value with the tag is that is found,
      whatever becomes of it then; or, if none is found, where the last one with the tag is. */
  lemma TlvOffsetIs(mem: seq<byte>, q: Request)
    requires Acceptable(mem, q) && Served(q) && mem != []
    ensures q.tlvOffset.None? ==> Parse(mem, q).tlvOffset == None
    ensures q.tlvOffset.Some? ==>
              (var hs := WithTag(ValuesFrom(mem, 0), q.tag % 256);
               var i := FirstFrom(hs, q.tlvOffset.value);
               Parse(mem, q).tlvOffset ==
                 if i < |hs| then Some(hs[i].pos) else if hs == [] then q.tlvOffset else Some(hs[|hs| - 1].pos))
  {
    var from := if q.tlvOffset.Some? then q.tlvOffset.value else 0;
    FindIsFirst(mem, q.LowTag(), from, 0, None);
    ParseByHit(mem, q);
    hide Find, Parse, ValuesFrom, WithTag, FirstFrom, Used;
  }

  /** The parts of a request, in bits 31, 30 and 0 to 29 of the offset and in the low byte of the tag. */
  lemma RequestParts(q: Request)
    ensures q.offset as int ==
      (if q.Compare() then 0x8000_0000 else 0) + (if q.Get() then 0x4000_0000 else 0) + q.Skip()
    ensures q.Skip() < 0x4000_0000 && q.tag as int % 256 == q.LowTag() as int
  {
  }

  // ------------------------------------------------------------------ enumeration

  lemma {:induction false} HitIgnoresSeen(mem: seq<byte>, tag: byte, from: nat, p: nat, x: Option<nat>, y: Option<nat>)
    requires p <= |mem|
    ensures Find(mem, tag, from, p, x).hit == Find(mem, tag, from, p, y).hit
    decreases |mem| - p
  {
    if |mem| - p >= 2 && ValueOf(mem, p).Some? {
      var h := ValueOf(mem, p).value;
      if mem[p] != tag { HitIgnoresSeen(mem, tag, from, Behind(mem, h), x, y); }
    }
  }

  /** Where the value of the last record starts. */
  function LastValueAt(recs: seq<Record>): int
    requires Encodable(recs) && recs != []
  {
    |Serialise(recs)| - |recs[|recs| - 1].value|
  }

  lemma LastValueAtStep(recs: seq<Record>)
    requires Encodable(recs) && recs != []
    ensures if |recs| == 1 then LastValueAt(recs) == HeaderSize(recs[0])
            else LastValueAt(recs) == |Encoded(recs[0])| + LastValueAt(recs[1..])
    ensures LastValueAt(recs) >= 2 && (|recs| > 1 ==> LastValueAt(recs) > HeaderSize(recs[0]))
    decreases |recs|
  {
    EncodedSize(recs[0]);
    SerialiseStep(recs);
    if |recs| > 1 {
      LastValueAtStep(recs[1..]);
    } else {
      assert Serialise(recs[1..]) == [];
    }
  }

  /** A search from behind the start of the last value of some records passes all of them. */
  lemma {:induction false} FindSkips(mem: seq<byte>, pre: seq<byte>, a: seq<Record>, rest: seq<byte>, tag: byte,
                                     from: nat, seen: Option<nat>)
    requires Encodable(a) && a != [] && mem == pre + Serialise(a) + rest && a[|a| - 1].value != []
    requires from > |pre| + LastValueAt(a)
    ensures Find(mem, tag, from, |pre|, seen).hit == Find(mem, tag, from, |pre| + |Serialise(a)|, None).hit
    decreases |a|
  {
    hide *;
    SerialiseStep(a);
    RestEncodable(a);
    LastValueAtStep(a);
    var r, tail := a[0], a[1..];
    var pre', tailBytes := pre + Encoded(r), Serialise(tail);
    assert mem == pre + Encoded(r) + (tailBytes + rest);
    SerialiseEmpty(tail);
    SearchAt(mem, pre, r, tailBytes + rest, tag, from, seen);
    var seen' := if r.tag == tag then Some(|pre| + HeaderSize(r)) else seen;
    if tail == [] {
      HitIgnoresSeen(mem, tag, from, |pre'|, seen', None);
    } else {
      assert mem == pre' + tailBytes + rest;
      FindSkips(mem, pre', tail, rest, tag, from, seen');
    }
  }

  /** What a caller collects who asks for the value behind *tlvoffset, goes on from *tlvoffset + 1, and stops at
      the first answer of zero. */
  function Values(mem: seq<byte>, tag: byte, from: nat, max: uint32, buffer: seq<byte>): seq<seq<byte>>
    requires |mem| <= MAX_MEMORY && |buffer| >= max
    decreases if from <= |mem| then |mem| - from + 1 else 0
  {
    var q := Request(Some(from), tag, 0, Target(buffer), max);
    var o := Parse(mem, q);
    CopyIsSlice(mem, q);
    if o.ret == 0 then [] else [o.copied] + Values(mem, tag, o.tlvOffset.value + 1, max, buffer)
  }

  ghost predicate At(mem: seq<byte>, lo: nat, bs: seq<byte>) {
    lo + |bs| <= |mem| && mem[lo..lo + |bs|] == bs
  }

  /** On arbitrary bytes, whatever is copied is a slice of the memory and at most maxlength long; with a TLV offset
      it is at the new TLV offset, which is not before the old one. */
  lemma CopyIsSlice(mem: seq<byte>, q: Request)
    requires Acceptable(mem, q) && q.target.Target? && !q.Get() && !q.Compare()
    ensures var o := Parse(mem, q);
      && o.ret == |o.copied| <= q.maxLength && o.address == None && (exists lo: nat :: At(mem, lo, o.copied))
      && (o.ret > 0 && q.tlvOffset.Some? ==>
            && o.tlvOffset.Some? && q.tlvOffset.value <= o.tlvOffset.value
            && At(mem, o.tlvOffset.value + q.Skip(), o.copied))
  {
    var from := if q.tlvOffset.Some? then q.tlvOffset.value else 0;
    var Found(h, seen) := Find(mem, q.LowTag(), from, 0, None);
    ParseByHit(mem, q);
    FindBounds(mem, q.LowTag(), from, 0, None);
    hide Find, Parse, Request.LowTag;
    if h.Some? {
      var o := Use(mem, h.value, q, Reported(q.tlvOffset, seen));
      UseCopies(mem, h.value, q, Reported(q.tlvOffset, seen));
      hide Use, Request.Skip, At;
      assert At(mem, h.value.pos + q.Skip(), o.copied) || o.copied == [];
    }
    assert At(mem, 0, []);
  }

  lemma UseCopies(mem: seq<byte>, h: Hit, q: Request, tlvOffset: Option<nat>)
    requires Acceptable(mem, q) && q.target.Target? && !q.Get() && !q.Compare() && h.pos <= |mem|
    ensures var o := Use(mem, h, q, tlvOffset);
      && o.ret == |o.copied| <= q.maxLength && o.address == None && o.tlvOffset == tlvOffset
      && (o.ret > 0 ==> At(mem, h.pos + q.Skip(), o.copied))
  {
  }

  /** On arbitrary bytes, exactly what is copied of the value found: the part asked for, if it lies inside the memory;
      of a value that is cut off all that is there, if it is asked for from its first byte on; nothing otherwise. */
  lemma CopyIff(mem: seq<byte>, q: Request)
    requires Acceptable(mem, q) && q.target.Target? && !q.Get() && !q.Compare()
    ensures var h := Find(mem, q.LowTag(), if q.tlvOffset.Some? then q.tlvOffset.value else 0, 0, None).hit;
      h.Some? ==>
        (var pos, len, skip := h.value.pos, h.value.len, q.Skip();
         var w := if q.maxLength < len - skip then q.maxLength else len - skip;
         && pos < |mem|
         && Parse(mem, q).copied ==
              if skip > len then []
              else if pos + skip + w <= |mem| then mem[pos + skip..pos + skip + w]
              else if skip == 0 then mem[pos..]
              else [])
  {
    var from := if q.tlvOffset.Some? then q.tlvOffset.value else 0;
    hide *;
    assert Served(q) by { ServedTarget(q); }
    ParseByHit(mem, q);
    var Found(h, seen) := Find(mem, q.LowTag(), from, 0, None);
    if h.Some? {
      PartCopied(mem, h.value, q, Reported(q.tlvOffset, seen));
    }
  }

  lemma ServedTarget(q: Request)
    ensures q.target.Target? ==> Served(q)
  {
  }

  lemma PartCopied(mem: seq<byte>, h: Hit, q: Request, tlvOffset: Option<nat>)
    requires Acceptable(mem, q) && q.target.Target? && !q.Get() && !q.Compare() && h.pos < |mem|
    ensures var pos, len, skip := h.pos, h.len, q.Skip();
      var w := if q.maxLength < len - skip then q.maxLength else len - skip;
      !q.Refused() &&
      Use(mem, h, q, tlvOffset).copied ==
        if skip > len then []
        else if pos + skip + w <= |mem| then mem[pos + skip..pos + skip + w]
        else if skip == 0 then mem[pos..]
        else []
  {
    PartUsed(mem, h, q);
    CopiedPart(mem, h, q, tlvOffset);
    hide Used, Use, Request.Skip;
    WholeRest(mem, h.pos);
  }

  lemma WholeRest(mem: seq<byte>, pos: nat)
    requires pos <= |mem|
    ensures mem[pos..pos + (|mem| - pos)] == mem[pos..]
  {
  }

  lemma CopiedPart(mem: seq<byte>, h: Hit, q: Request, tlvOffset: Option<nat>)
    requires Acceptable(mem, q) && q.target.Target? && !q.Get() && !q.Compare() && h.pos < |mem|
    ensures var used, start := Used(mem, h, q), h.pos + q.Skip();
      Use(mem, h, q, tlvOffset).copied == if used.None? then [] else mem[start..start + used.value]
  {
    hide Used;
  }

  lemma PartUsed(mem: seq<byte>, h: Hit, q: Request)
    requires h.pos < |mem| && !q.Compare()
    ensures var skip := q.Skip();
      var w := if q.maxLength < h.len - skip then q.maxLength else h.len - skip;
      Used(mem, h, q) ==
        if skip > h.len then None
        else if h.pos + skip + w <= |mem| then Some(w)
        else if skip == 0 then Some(|mem| - h.pos)
        else None
  {
    hide Request.Skip;
  }

  /** In the same way, exactly when an address is given, and the number with it, which may be larger than what follows
      the address if the value is cut off. */
  lemma AddressIff(mem: seq<byte>, q: Request)
    requires Acceptable(mem, q) && Served(q) && q.Get() && !q.Compare()
    ensures var h := Find(mem, q.LowTag(), if q.tlvOffset.Some? then q.tlvOffset.value else 0, 0, None).hit;
      h.Some? ==>
        (var pos, len, skip := h.value.pos, h.value.len, q.Skip();
         var w, rest := if q.maxLength < len - skip then q.maxLength else len - skip, |mem| - pos;
         var o := Parse(mem, q);
         && pos < |mem|
         && if skip <= len && (pos + skip + w <= |mem| || skip == 0)
            then o.address == Some(pos + skip) && o.ret == (if len - skip < rest then len - skip else rest)
            else o.address == None && o.ret == 0)
  {
    var from := if q.tlvOffset.Some? then q.tlvOffset.value else 0;
    ParseByHit(mem, q);
    hide Parse, Find;
  }

  /** The values up to the first empty one. */
  function UpToEmpty(vs: seq<seq<byte>>): seq<seq<byte>> {
    if vs == [] || vs[0] == [] then [] else [vs[0]] + UpToEmpty(vs[1..])
  }

  function Trimmed(vs: seq<seq<byte>>, max: nat): seq<seq<byte>> {
    if vs == [] then [] else [vs[0][..Min(|vs[0]|, max)]] + Trimmed(vs[1..], max)
  }

  /** The search may start anywhere between the last value of a and what follows a. */
  ghost predicate Between(a: seq<Record>, from: nat) {
    && Encodable(a)
    && (if a == [] then from == 0 else a[|a| - 1].value != [] && LastValueAt(a) < from <= |Serialise(a)|)
  }

  lemma SearchBetween(mem: seq<byte>, a: seq<Record>, b: seq<Record>, tag: byte, from: nat)
    requires Between(a, from) && Encodable(b) && mem == Serialise(a) + Serialise(b)
    ensures Find(mem, tag, from, 0, None).hit == Expected(|Serialise(a)|, b, tag)
  {
    hide Find, Expected, Serialise, LastValueAt;
    var pre, rest := Serialise(a), Serialise(b);
    if a == [] {
      SerialiseEmpty(a);
    } else {
      assert mem == [] + pre + rest;
      FindSkips(mem, [], a, rest, tag, from, None);
    }
    FindFirst(mem, pre, b, tag, from, None);
  }

  /** The records up to and including the one found form the next prefix. */
  lemma PrefixGrows(mem: seq<byte>, a: seq<Record>, b: seq<Record>, i: nat)
    requires Encodable(a) && Encodable(b) && mem == Serialise(a) + Serialise(b) && i < |b| && b[i].value != []
    requires Encodable(b[..i])
    ensures var a', b', pos, len :=
        a + b[..i + 1], b[i + 1..], |Serialise(a)| + |Serialise(b[..i])| + HeaderSize(b[i]), |b[i].value|;
      && Between(a', pos + 1) && Encodable(a') && Encodable(b') && mem == Serialise(a') + Serialise(b')
      && pos + len <= |mem| && mem[pos..pos + len] == b[i].value
  {
    hide *;
    ValueFoundBehind(mem, a, b, i);
    Regrouped(mem, a, b, i + 1);
    GrownPrefix(a, b, i);
  }

  lemma ValueFoundBehind(mem: seq<byte>, a: seq<Record>, b: seq<Record>, i: nat)
    requires Encodable(a) && Encodable(b) && mem == Serialise(a) + Serialise(b) && i < |b| && Encodable(b[..i])
    ensures var pos := |Serialise(a)| + |Serialise(b[..i])| + HeaderSize(b[i]);
      pos + |b[i].value| <= |mem| && mem[pos..pos + |b[i].value|] == b[i].value
  {
    hide *;
    ValueFound(b, i);
    Offset(mem, Serialise(a), Serialise(b), |Serialise(b[..i])| + HeaderSize(b[i]), |b[i].value|);
  }

  lemma GrownPrefix(a: seq<Record>, b: seq<Record>, i: nat)
    requires Encodable(a) && Encodable(b) && i < |b| && Encodable(b[..i]) && b[i].value != []
    ensures Encodable(a + b[..i + 1])
    ensures Between(a + b[..i + 1], |Serialise(a)| + |Serialise(b[..i])| + HeaderSize(b[i]) + 1)
  {
    hide *;
    var a' := a + b[..i + 1];
    LastOf(a, b, i);
    PartEncodable(b, i + 1);
    ValueFound(b, i);
    SerialiseConcat(a, b[..i + 1]);
    EndsWith(a', b[i], |Serialise(a)| + |Serialise(b[..i])| + HeaderSize(b[i]) + 1);
  }

  lemma LastOf(a: seq<Record>, b: seq<Record>, i: nat)
    requires i < |b|
    ensures var all := a + b[..i + 1];
      all != [] && all[|all| - 1] == b[i]
  {
  }

  lemma PartEncodable(b: seq<Record>, i: nat)
    requires Encodable(b) && i <= |b|
    ensures Encodable(b[..i])
  {
  }

  lemma EndsWith(a: seq<Record>, r: Record, from: nat)
    requires Encodable(a) && a != [] && a[|a| - 1] == r && r.value != []
    requires |Serialise(a)| - |r.value| < from <= |Serialise(a)|
    ensures Between(a, from)
  {
  }

  lemma Offset(mem: seq<byte>, x: seq<byte>, w: seq<byte>, start: nat, len: nat)
    requires mem == x + w && start + len <= |w|
    ensures mem[|x| + start..|x| + start + len] == w[start..start + len]
  {
  }

  lemma Regrouped(mem: seq<byte>, a: seq<Record>, b: seq<Record>, i: nat)
    requires Encodable(a) && Encodable(b) && i <= |b| && mem == Serialise(a) + Serialise(b)
    ensures Encodable(a + b[..i]) && Encodable(b[i..]) && mem == Serialise(a + b[..i]) + Serialise(b[i..])
  {
    hide Serialise;
    SerialiseConcat(a, b[..i]);
    SerialiseConcat(b[..i], b[i..]);
    assert b[..i] + b[i..] == b;
    var x, y, z := Serialise(a), Serialise(b[..i]), Serialise(b[i..]);
    assert x + (y + z) == (x + y) + z;
  }

  lemma CopyOfHit(mem: seq<byte>, q: Request)
    requires Acceptable(mem, q) && q.target.Target? && q.offset == 0 && q.tlvOffset.Some? && q.maxLength > 0
    ensures var h, o := Find(mem, q.LowTag(), q.tlvOffset.value, 0, None).hit, Parse(mem, q);
      && (h.None? || h.value.len == 0 ==> o.ret == 0)
      && (h.Some? && h.value.len > 0 && h.value.pos + h.value.len <= |mem| ==>
            && o.ret == Min(h.value.len, q.maxLength) && o.tlvOffset == Some(h.value.pos)
            && o.copied == mem[h.value.pos..h.value.pos + o.ret])
  {
    hide *;
    var Found(h, seen) := Find(mem, q.LowTag(), q.tlvOffset.value, 0, None);
    ParseByHit(mem, q);
    FindBounds(mem, q.LowTag(), q.tlvOffset.value, 0, None);
    ReportedIs(q.tlvOffset, seen);
    if h.Some? {
      CopyWhole(mem, h.value, q, Reported(q.tlvOffset, seen));
    }
  }

  lemma ReportedIs(wanted: Option<nat>, seen: Option<nat>)
    ensures Reported(wanted, seen) == if wanted.Some? && seen.Some? then seen else wanted
  {
  }

  lemma CopyWhole(mem: seq<byte>, h: Hit, q: Request, tlvOffset: Option<nat>)
    requires Acceptable(mem, q) && q.target.Target? && q.offset == 0 && h.pos <= |mem|
    ensures h.len == 0 ==> Use(mem, h, q, tlvOffset).ret == 0
    ensures h.pos + h.len <= |mem| ==>
              var n := Min(h.len, q.maxLength);
              0 <= n <= h.len && Use(mem, h, q, tlvOffset) == Outcome(n, mem[h.pos..h.pos + n], None, tlvOffset)
  {
    assert q.Skip() == 0 && !q.Get() && !q.Compare();
  }

  /** One question of an enumeration. */
  lemma AskedOnce(mem: seq<byte>, tag: byte, from: nat, max: uint32, buffer: seq<byte>)
    requires |mem| <= MAX_MEMORY && 0 < max <= |buffer|
    ensures var h := Find(mem, tag, from, 0, None).hit;
      && (h.None? || h.value.len == 0 ==> Values(mem, tag, from, max, buffer) == [])
      && (h.Some? && h.value.len > 0 && h.value.pos + h.value.len <= |mem| ==>
            Values(mem, tag, from, max, buffer) ==
              [mem[h.value.pos..h.value.pos + Min(h.value.len, max)]] +
              Values(mem, tag, h.value.pos + 1, max, buffer))
  {
    hide *;
    AskedFor(mem, tag, from, max, buffer);
    CopyOfHit(mem, Request(Some(from), tag, 0, Target(buffer), max));
    ValuesStep(mem, tag, from, max, buffer);
  }

  lemma AskedFor(mem: seq<byte>, tag: byte, from: nat, max: uint32, buffer: seq<byte>)
    requires |mem| <= MAX_MEMORY && 0 < max <= |buffer|
    ensures var q := Request(Some(from), tag, 0, Target(buffer), max);
      q.LowTag() == tag && Acceptable(mem, q) && !q.Get() && !q.Compare()
    ensures forall x: nat, y: nat :: 0 < x && 0 < y ==> Min(x, y) > 0
  {
  }

  lemma ValuesStep(mem: seq<byte>, tag: byte, from: nat, max: uint32, buffer: seq<byte>)
    requires |mem| <= MAX_MEMORY && 0 < max <= |buffer|
    ensures var o := Parse(mem, Request(Some(from), tag, 0, Target(buffer), max));
      && (o.ret > 0 ==> o.tlvOffset.Some?)
      && Values(mem, tag, from, max, buffer) ==
           if o.ret == 0 then [] else [o.copied] + Values(mem, tag, o.tlvOffset.value + 1, max, buffer)
  {
    CopyIsSlice(mem, Request(Some(from), tag, 0, Target(buffer), max));
    hide Parse;
  }

  lemma FirstKept(recs: seq<Record>, tag: byte, max: nat)
    ensures var i, kept := FirstIndex(recs, tag), Trimmed(UpToEmpty(Occurrences(recs, tag)), max);
      kept == if i == |recs| || recs[i].value == [] then []
              else [recs[i].value[..Min(|recs[i].value|, max)]] +
                   Trimmed(UpToEmpty(Occurrences(recs[i + 1..], tag)), max)
  {
    FirstOccurrence(recs, tag);
    hide Occurrences, FirstIndex;
    var i := FirstIndex(recs, tag);
    if i < |recs| {
      var rest := Occurrences(recs[i + 1..], tag);
      assert ([recs[i].value] + rest)[1..] == rest;
    }
  }

  lemma {:induction false} EnumerationFrom(mem: seq<byte>, a: seq<Record>, b: seq<Record>, tag: byte, from: nat,
                                           max: uint32, buffer: seq<byte>)
    requires Between(a, from) && Encodable(a) && Encodable(b) && mem == Serialise(a) + Serialise(b)
    requires |mem| <= MAX_MEMORY && 0 < max <= |buffer|
    ensures Values(mem, tag, from, max, buffer) == Trimmed(UpToEmpty(Occurrences(b, tag)), max)
    decreases |b|
  {
    hide *;
    SearchBetween(mem, a, b, tag, from);
    AskedOnce(mem, tag, from, max, buffer);
    FirstKept(b, tag, max);
    ExpectedIs(|Serialise(a)|, b, tag);
    var i := FirstIndex(b, tag);
    if i < |b| && b[i].value != [] {
      var pos, v := |Serialise(a)| + |Serialise(b[..i])| + HeaderSize(b[i]), b[i].value;
      PrefixGrows(mem, a, b, i);
      CutSlice(mem, pos, v, max);
      EnumerationFrom(mem, a + b[..i + 1], b[i + 1..], tag, pos + 1, max, buffer);
    }
  }

  lemma ExpectedIs(pre: nat, recs: seq<Record>, tag: byte)
    requires Encodable(recs)
    ensures var i := FirstIndex(recs, tag);
      && i <= |recs| && Encodable(recs[..i])
      && (i < |recs| ==> |recs[i].value| < 65536)
      && Expected(pre, recs, tag) ==
           if i == |recs| || (i == |recs| - 1 && recs[i].value == []) then None
           else Some(Hit(pre + |Serialise(recs[..i])| + HeaderSize(recs[i]), |recs[i].value|))
  {
  }

  lemma CutSlice(mem: seq<byte>, pos: nat, v: seq<byte>, max: nat)
    requires pos + |v| <= |mem| && mem[pos..pos + |v|] == v
    ensures 0 <= Min(|v|, max) <= |v| && v[..Min(|v|, max)] == mem[pos..pos + Min(|v|, max)]
  {
    SubSlice(mem, pos, |v|, 0, Min(|v|, max));
  }

  /** Asking again and again with *tlvoffset + 1 gives the values with the tag in order, each cut to maxlength,
      up to the first empty one: all of them if none is empty. */
  lemma Enumeration(recs: seq<Record>, tag: byte, max: uint32, buffer: seq<byte>)
    requires Encodable(recs) && |Serialise(recs)| <= MAX_MEMORY && 0 < max <= |buffer|
    ensures var vs := Occurrences(recs, tag);
      && Values(Serialise(recs), tag, 0, max, buffer) == Trimmed(UpToEmpty(vs), max)
      && (UpToEmpty(vs) == vs <==> [] !in vs)
  {
    var mem := Serialise(recs);
    assert mem == Serialise([]) + mem;
    EnumerationFrom(mem, [], recs, tag, 0, max, buffer);
    UpToEmptyIsAll(Occurrences(recs, tag));
  }

  lemma {:induction false} UpToEmptyIsAll(vs: seq<seq<byte>>)
    ensures UpToEmpty(vs) == vs <==> [] !in vs
  {
    if vs != [] && vs[0] != [] {
      UpToEmptyIsAll(vs[1..]);
      assert vs == [vs[0]] + vs[1..];
    }
  }

  // ------------------------------------------------------------------ malformed input

  /** The comparison trusts the length that a value is said to have, but compares no more bytes than there are: a
      value that is cut off at the end of the memory is reported to be equal to a longer one. */
  lemma ComparisonOfCutOffValue()
    ensures Parse([7, 3, 1], Request(None, 7, COMPARE_WITH_BUFFER, Target([1, 2, 3]), 3)).ret == 1
  {
    var mem: seq<byte> := [7, 3, 1];
    var q := Request(None, 7, COMPARE_WITH_BUFFER, Target([1, 2, 3]), 3);
    FindStep(mem, 7, 0, 0, None);
    ParseByHit(mem, q);
    assert Used(mem, Hit(2, 3), q) == Some(1);
    assert q.target.bytes[..1] == [1] == mem[2..3];
  }

  /** The value at h matches the request: it has the length asked for, and what there is of it is what the buffer
      holds; if it is cut off at the end of the memory, it is compared from its first byte on. */
  ghost predicate Matches(mem: seq<byte>, h: Hit, q: Request)
    requires h.pos <= |mem| && q.target.Target? && q.maxLength <= |q.target.bytes|
  {
    && h.len == q.Skip() + q.maxLength
    && (if h.pos + h.len <= |mem| then mem[h.pos + q.Skip()..h.pos + h.len] == q.target.bytes[..q.maxLength]
        else q.Skip() == 0 && mem[h.pos..] == q.target.bytes[..|mem| - h.pos])
  }

  lemma UseCompares(mem: seq<byte>, h: Hit, q: Request, tlvOffset: Option<nat>)
    requires Acceptable(mem, q) && q.target.Target? && q.Compare() && !q.Get() && h.pos < |mem|
    ensures Use(mem, h, q, tlvOffset).ret == 1 <==> Matches(mem, h, q)
  {
    var skip := q.Skip();
    if h.len == skip + q.maxLength && skip == 0 && h.pos + h.len > |mem| {
      assert mem[h.pos..h.pos + (|mem| - h.pos)] == mem[h.pos..];
    }
  }

  /** Exactly when the parser reports equality, on arbitrary bytes: there is a buffer, and the first value with the tag
      that does not start before the requested offset matches. A value that is cut off is compared only in part. */
  lemma ComparisonIsPartial(mem: seq<byte>, q: Request)
    requires Acceptable(mem, q) && q.Compare() && !q.Get()
    ensures var h := Find(mem, q.LowTag(), if q.tlvOffset.Some? then q.tlvOffset.value else 0, 0, None).hit;
      Parse(mem, q).ret == 1 <==> q.target.Target? && h.Some? && h.value.pos < |mem| && Matches(mem, h.value, q)
  {
    hide *;
    var from := if q.tlvOffset.Some? then q.tlvOffset.value else 0;
    var Found(h, seen) := Find(mem, q.LowTag(), from, 0, None);
    FindBounds(mem, q.LowTag(), from, 0, None);
    BufferLargeEnough(mem, q);
    if q.target.Target? {
      ParseByHit(mem, q);
      if h.Some? {
        UseCompares(mem, h.value, q, Reported(q.tlvOffset, seen));
      }
    }
  }

  lemma BufferLargeEnough(mem: seq<byte>, q: Request)
    requires Acceptable(mem, q) && !q.Get()
    ensures q.target.Target? ==> q.maxLength <= |q.target.bytes|
    ensures q.Refused() <==> !q.target.Target?
    ensures q.Refused() ==> Parse(mem, q).ret == 0
  {
  }
}
