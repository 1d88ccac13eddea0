/** The BER-TLV parser of src/os.c and its inverse, the encoder of install_params.py. Lengths follow section 8.1.3
    of ITU-T X.690. */
module BerTlv {
  import opened CTypes
  import N = Numerals

  const COMPARE_WITH_BUFFER := 0x8000_0000
  const GET_LENGTH := 0x4000_0000

  /** As long as an offset, which is below GET_LENGTH, and a length inside the memory do not wrap around together. */
  const MAX_MEMORY := 0xC000_0000

  // ------------------------------------------------------------------ the search

  /** A value found: where it starts and how long it is said to be. */
  datatype Hit = Hit(pos: nat, len: uint32)

  /** What a search ends with: the value to use, and where the last value with the tag was seen, used or not. */
  datatype Found = Found(hit: Option<Hit>, seen: Option<nat>)

  /** Length bytes, most significant first, shifted into a 32-bit variable. */
  function Shifted(bs: seq<byte>): uint32 {
    if bs == [] then 0
    else
      var high: nat, low: nat := Shifted(bs[..|bs| - 1]), bs[|bs| - 1];
      U32(high * 256) + low
  }

  /** The value that belongs to the tag at p, unless its length is cut off, not definite, or followed by nothing. */
  function ValueOf(mem: seq<byte>, p: nat): (h: Option<Hit>)
    requires p + 2 <= |mem|
    ensures h.Some? ==> p + 2 <= h.value.pos < |mem|
  {
    var l: nat := mem[p + 1];
    var n := if l <= 0x80 then 0 else l - 0x80;
    if l == 0x80 || p + 2 + n >= |mem| then None
    else if l < 0x80 then Some(Hit(p + 2, l))
    else Some(Hit(p + 2 + n, Shifted(mem[p + 2..p + 2 + n])))
  }

  function Behind(mem: seq<byte>, h: Hit): nat
    requires h.pos <= |mem|
  {
    h.pos + Min(|mem| - h.pos, h.len)
  }

  /** The first value with the tag that does not start before `from`, from the cursor p on. */
  function Find(mem: seq<byte>, tag: byte, from: nat, p: nat, seen: Option<nat>): Found
    requires p <= |mem|
    decreases |mem| - p
  {
    if |mem| - p < 2 then Found(None, seen)
    else
      var h := ValueOf(mem, p);
      if h.None? then Found(None, seen)
      else if mem[p] == tag then
        if from <= h.value.pos then Found(h, Some(h.value.pos))
        else Find(mem, tag, from, Behind(mem, h.value), Some(h.value.pos))
      else Find(mem, tag, from, Behind(mem, h.value), seen)
  }

  lemma {:induction false} FindBounds(mem: seq<byte>, tag: byte, from: nat, p: nat, seen: Option<nat>)
    requires p <= |mem|
    ensures var Found(h, seen') := Find(mem, tag, from, p, seen);
      && (h.Some? ==> p + 2 <= h.value.pos < |mem| && from <= h.value.pos && seen' == Some(h.value.pos))
    decreases |mem| - p
  {
    if |mem| - p >= 2 && ValueOf(mem, p).Some? {
      var h := ValueOf(mem, p).value;
      if !(mem[p] == tag && from <= h.pos) {
        FindBounds(mem, tag, from, Behind(mem, h), if mem[p] == tag then Some(h.pos) else seen);
      }
    }
  }

  lemma OneByteMore(v: nat, low: nat)
    requires low < 256
    ensures (v % 0x1_0000_0000 * 256) % 0x1_0000_0000 + low == (v * 256 + low) % 0x1_0000_0000
  {
    var q, r := v / 0x1_0000_0000, v % 0x1_0000_0000;
    var t := r * 256;
    assert v * 256 + low == q * 256 * 0x1_0000_0000 + (t + low);
    N.DivModUnique(q * 256 + t / 0x1_0000_0000, t % 0x1_0000_0000 + low, 0x1_0000_0000);
  }

  /** The length bytes are a number, most significant byte first, of which 32 bits are kept. */
  lemma {:induction false} ShiftedIs(bs: seq<byte>)
    ensures Shifted(bs) as int == N.Val(bs, 256) % 0x1_0000_0000
  {
    if bs != [] {
      ShiftedIs(bs[..|bs| - 1]);
      OneByteMore(N.Val(bs[..|bs| - 1], 256), bs[|bs| - 1]);
    }
  }

  /** The length field: up to 127 as it is; behind 129 and more, that many bytes less 128. */
  lemma LengthField(mem: seq<byte>, p: nat)
    requires p + 2 <= |mem|
    ensures var l: int := mem[p + 1] as int;
      var n := if l > 128 then l - 128 else 0;
      ValueOf(mem, p) ==
        if l == 128 || p + 2 + n >= |mem| then None
        else Some(Hit(p + 2 + n, if l < 128 then l else N.Val(mem[p + 2..p + 2 + n], 256) % 0x1_0000_0000))
  {
    var l: nat := mem[p + 1];
    if l > 128 && p + 2 + (l - 128) < |mem| { ShiftedIs(mem[p + 2..p + 2 + (l - 128)]); }
    hide Shifted, N.Val;
  }

  /** The values in memory from p on, with their tags, as far as their lengths can be read. */
  function ValuesFrom(mem: seq<byte>, p: nat): seq<(byte, Hit)>
    requires p <= |mem|
    decreases |mem| - p
  {
    if |mem| - p < 2 || ValueOf(mem, p).None? then []
    else
      var h := ValueOf(mem, p).value;
      [(mem[p], h)] + ValuesFrom(mem, if h.len < |mem| - h.pos then h.pos + h.len else |mem|)
  }

  /** Those with the tag. */
  function WithTag(vs: seq<(byte, Hit)>, tag: byte): seq<Hit> {
    if vs == [] then [] else (if vs[0].0 == tag then [vs[0].1] else []) + WithTag(vs[1..], tag)
  }

  /** The first of them that does not start before `from`. */
  function FirstFrom(hs: seq<Hit>, from: nat): (i: nat)
    ensures i <= |hs| && (i < |hs| ==> hs[i].pos >= from) && forall j :: 0 <= j < i ==> hs[j].pos < from
  {
    if hs == [] || hs[0].pos >= from then 0 else 1 + FirstFrom(hs[1..], from)
  }

  /** The search ends at that value; what it has seen is that value, or the last one if there is none. */
  lemma {:induction false} FindIsFirst(mem: seq<byte>, tag: byte, from: nat, p: nat, seen: Option<nat>)
    requires p <= |mem|
    ensures var hs := WithTag(ValuesFrom(mem, p), tag);
      var i := FirstFrom(hs, from);
      Find(mem, tag, from, p, seen) ==
        if i < |hs| then Found(Some(hs[i]), Some(hs[i].pos))
        else if hs == [] then Found(None, seen)
        else Found(None, Some(hs[|hs| - 1].pos))
    decreases |mem| - p
  {
    FindStep(mem, tag, from, p, seen);
    hide Find, ValueOf;
    if |mem| - p >= 2 && ValueOf(mem, p).Some? {
      ValueBehind(mem, p);
      var h := ValueOf(mem, p).value;
      var next := Behind(mem, h);
      var vs := ValuesFrom(mem, next);
      var hs := WithTag(vs, tag);
      assert ValuesFrom(mem, p) == [(mem[p], h)] + vs;
      assert ([(mem[p], h)] + vs)[1..] == vs;
      if mem[p] == tag {
        assert WithTag(ValuesFrom(mem, p), tag) == [h] + hs && ([h] + hs)[1..] == hs;
        if h.pos < from { FindIsFirst(mem, tag, from, next, Some(h.pos)); }
      } else {
        assert WithTag(ValuesFrom(mem, p), tag) == [] + hs == hs;
        FindIsFirst(mem, tag, from, next, seen);
      }
    }
  }

  lemma ValueBehind(mem: seq<byte>, p: nat)
    requires p + 2 <= |mem| && ValueOf(mem, p).Some?
    ensures var h := ValueOf(mem, p).value;
      && p + 2 <= h.pos < |mem|
      && Behind(mem, h) == if h.len < |mem| - h.pos then h.pos + h.len else |mem|
  {
  }

  // ------------------------------------------------------------------ the result

  /** What the caller passes as buffer: NULL, the address of a null pointer, or the address of a pointer to bytes. */
  datatype Target = NoTarget | NullTarget | Target(bytes: seq<byte>)

  datatype Request = Request(tlvOffset: Option<nat>, tag: uint32, offset: uint32, target: Target, maxLength: uint32)
  {
    predicate Compare() { offset >= COMPARE_WITH_BUFFER }
    predicate Get() { (offset / GET_LENGTH) % 2 == 1 }
    function Skip(): nat { offset % GET_LENGTH }
    function LowTag(): byte { tag % 256 }
    predicate Refused() { target.NoTarget? || (!Get() && target.NullTarget?) }
  }

  /** The returned number, the bytes copied to the target, where the target points to, and the new TLV offset. */
  datatype Outcome = Outcome(ret: uint32, copied: seq<byte>, address: Option<nat>, tlvOffset: Option<nat>)

  /** How many bytes of a value are used, behind the first `skip` ones; None if the request cannot be met. */
  function Used(mem: seq<byte>, h: Hit, q: Request): (n: Option<nat>)
    requires h.pos <= |mem|
    ensures n.Some? ==> h.pos + q.Skip() + n.value <= |mem| && n.value <= q.maxLength
  {
    if q.Skip() > h.len || q.Skip() > |mem| - h.pos then None
    else if q.Compare() && h.len - q.Skip() != q.maxLength then None
    else
      var n := Min(q.maxLength, Min(h.len - q.Skip(), |mem| - h.pos));
      if h.pos + q.Skip() + n > |mem| then None else Some(n)
  }

  /** A buffer to copy to or to compare with is at least maxLength bytes long. */
  ghost predicate Acceptable(mem: seq<byte>, q: Request) {
    |mem| <= MAX_MEMORY && (q.target.Target? && !q.Get() ==> q.maxLength <= |q.target.bytes|)
  }

  /** The new TLV offset: nothing is stored without a place to store it. */
  function Reported(wanted: Option<nat>, seen: Option<nat>): Option<nat> {
    if wanted.Some? && seen.Some? then seen else wanted
  }

  /** os_parse_bertlv */
  function Parse(mem: seq<byte>, q: Request): Outcome
    requires Acceptable(mem, q)
  {
    if mem == [] || q.Refused() then Outcome(0, [], None, q.tlvOffset)
    else
      var from := if q.tlvOffset.Some? then q.tlvOffset.value else 0;
      FindBounds(mem, q.LowTag(), from, 0, None);
      var Found(hit, seen) := Find(mem, q.LowTag(), from, 0, None);
      var tlvOffset := Reported(q.tlvOffset, seen);
      if hit.None? then Outcome(0, [], None, tlvOffset)
      else Use(mem, hit.value, q, tlvOffset)
  }

  function Use(mem: seq<byte>, h: Hit, q: Request, tlvOffset: Option<nat>): Outcome
    requires Acceptable(mem, q) && !q.Refused() && h.pos <= |mem|
  {
    var used := Used(mem, h, q);
    if used.None? then Outcome(0, [], None, tlvOffset)
    else
      var start, n := h.pos + q.Skip(), used.value;
      if q.Get() then Outcome(Min(h.len - q.Skip(), |mem| - h.pos), [], Some(start), tlvOffset)
      else if q.Compare() then
        Outcome(if q.target.bytes[..n] == mem[start..start + n] then 1 else 0, [], None, tlvOffset)
      else Outcome(n, mem[start..start + n], None, tlvOffset)
  }

  /** Memory that reaches the end of the address space: its end wraps around to zero, so no value in it is used. */
  predicate AtTheEnd(base: uint32, mem: seq<byte>) { base + |mem| == 0x1_0000_0000 }

  function UseAt(base: uint32, mem: seq<byte>, h: Hit, q: Request, tlvOffset: Option<nat>): Outcome
    requires Acceptable(mem, q) && !q.Refused() && h.pos <= |mem|
  {
    if AtTheEnd(base, mem) then Outcome(0, [], None, tlvOffset) else Use(mem, h, q, tlvOffset)
  }

  /** os_parse_bertlv for memory at a given address. */
  function ParseAt(base: uint32, mem: seq<byte>, q: Request): Outcome
    requires Acceptable(mem, q)
  {
    if AtTheEnd(base, mem) then Outcome(0, [], None, Parse(mem, q).tlvOffset) else Parse(mem, q)
  }

  // ------------------------------------------------------------------ the parser in place

  lemma ShiftedStart()
    ensures Shifted([]) == 0
  {
  }

  lemma ShiftedNext(s: seq<byte>, a: nat, p: nat)
    requires a <= p < |s|
    ensures var high: nat, low: nat := Shifted(s[a..p]), s[p];
      Shifted(s[a..p + 1]) == U32(high * 256) + low
  {
    assert s[a..p + 1][..p - a] == s[a..p];
  }

  /** The length field at the cursor, once its first byte has been read: the remaining length falls to zero
      exactly if nothing follows it. */
  method ReadLength(mem: array<byte>, memLen: nat, p0: nat, ghost s: seq<byte>) returns (hit: Option<Hit>)
    requires p0 + 2 <= memLen <= mem.Length && s == mem[..memLen]
    ensures hit == ValueOf(s, p0)
  {
    var p, remlen := p0 + 2, memLen - p0 - 2;
    var tlvlen: uint32 := mem[p0 + 1];
    if remlen == 0 {
      return None;
    }
    if tlvlen >= 0x80 {
      if tlvlen == 0x80 {
        return None;
      }
      var lenlen := tlvlen - 0x80;
      tlvlen := 0;
      ghost var end := p + lenlen;
      assert ValueOf(s, p0) == if end >= memLen then None else Some(Hit(end, Shifted(s[p..end])));
      hide ValueOf, Shifted;
      ShiftedStart();
      while lenlen > 0
        invariant p + remlen == memLen && p0 + 2 <= p && remlen > 0 && p + lenlen == end
        invariant tlvlen == Shifted(s[p0 + 2..p])
      {
        lenlen := lenlen - 1;
        ShiftedNext(s, p0 + 2, p);
        var high: nat, low: nat := tlvlen, mem[p];
        tlvlen := U32(high * 256) + low;
        p, remlen := p + 1, remlen - 1;
        if remlen == 0 {
          return None;
        }
      }
    }
    hit := Some(Hit(p, tlvlen));
  }

  lemma FindStep(mem: seq<byte>, tag: byte, from: nat, p: nat, seen: Option<nat>)
    requires p <= |mem|
    ensures Find(mem, tag, from, p, seen) ==
      if |mem| - p < 2 || ValueOf(mem, p).None? then Found(None, seen)
      else
        var h := ValueOf(mem, p).value;
        if mem[p] == tag && from <= h.pos then Found(Some(h), Some(h.pos))
        else Find(mem, tag, from, Behind(mem, h), if mem[p] == tag then Some(h.pos) else seen)
  {
  }

  /** The loop of os_parse_bertlv up to the value to be used; wanted is *tlvoffset, or None for NULL. */
  method Search(mem: array<byte>, memLen: nat, wanted: Option<nat>, tag: uint32)
    returns (hit: Option<Hit>, tlvOffset: Option<nat>)
    requires memLen <= mem.Length && memLen <= MAX_MEMORY
    ensures var Found(h, seen) := Find(mem[..memLen], tag % 256, if wanted.Some? then wanted.value else 0, 0, None);
      hit == h && tlvOffset == Reported(wanted, seen)
  {
    var low: byte := tag % 256;
    var from := if wanted.Some? then wanted.value else 0;
    ghost var s := mem[..memLen];
    ghost var seen: Option<nat> := None;
    ghost var r := Find(s, low, from, 0, None);
    hide *;
    tlvOffset := wanted;
    var p, remlen := 0, memLen;
    while remlen >= 2
      invariant mem[..memLen] == s && 0 <= remlen <= memLen && (remlen > 0 ==> p + remlen == memLen)
      invariant r == Find(s, low, from, memLen - remlen, seen) && tlvOffset == Reported(wanted, seen)
    {
      var stop;
      stop, hit, tlvOffset, p, remlen, seen := Visit(mem, memLen, wanted, low, from, p, tlvOffset, s, seen);
      if stop {
        return;
      }
    }
    FindStep(s, low, from, memLen - remlen, seen);
    hit := None;
  }

  /** One value: the search ends here, or goes on behind it. */
  method Visit(mem: array<byte>, memLen: nat, wanted: Option<nat>, low: byte, from: nat, p0: nat, offset0: Option<nat>,
               ghost s: seq<byte>, ghost seen0: Option<nat>)
    returns (stop: bool, hit: Option<Hit>, tlvOffset: Option<nat>, p: nat, remlen: nat, ghost seen: Option<nat>)
    requires p0 + 2 <= memLen <= mem.Length && s == mem[..memLen] && offset0 == Reported(wanted, seen0)
    ensures tlvOffset == Reported(wanted, seen)
    ensures stop ==> Find(s, low, from, p0, seen0) == Found(hit, seen)
    ensures !stop ==> remlen < memLen - p0 && (remlen > 0 ==> p + remlen == memLen)
    ensures !stop ==> Find(s, low, from, p0, seen0) == Find(s, low, from, memLen - remlen, seen)
  {
    hide *;
    FindStep(s, low, from, p0, seen0);
    stop, tlvOffset, p, remlen, seen := true, offset0, 0, 0, seen0;
    hit := ReadLength(mem, memLen, p0, s);
    if hit.None? {
      return;
    }
    var pos := hit.value.pos;
    stop := mem[p0] == low && from <= pos;
    if mem[p0] == low {
      seen, tlvOffset := Some(pos), Reported(wanted, Some(pos));
    }
    if !stop {
      p, remlen := NextTlv(memLen, hit.value, s);
    }
  }

  /** Behind a value; a length beyond the end leaves nothing. */
  method NextTlv(memLen: nat, h: Hit, ghost s: seq<byte>) returns (p: nat, remlen: nat)
    requires h.pos <= memLen == |s|
    ensures remlen <= memLen - h.pos && (remlen > 0 ==> p + remlen == memLen)
    ensures memLen - remlen == Behind(s, h)
  {
    p, remlen := h.pos + h.len, memLen - h.pos;
    remlen := remlen - Min(remlen, h.len);
  }

  /** The checks on addresses before a value is used: the value starts at base + pos. */
  predicate InsideMemory(base: uint32, memLen: uint32, pos: uint32, skip: uint32, n: uint32) {
    var end, tlv := U32(base + memLen), U32(base + pos);
    && skip <= memLen && n <= memLen && U32(skip + n) <= memLen
    && base <= tlv <= end
    && base <= U32(tlv + skip) <= end
    && base <= U32(U32(tlv + skip) + n) <= end
  }

  /** They hold exactly if the bytes lie inside the memory and it does not reach the end of the address space. */
  lemma AddressChecksAreExact(base: uint32, memLen: uint32, pos: uint32, skip: uint32, n: uint32)
    requires base + memLen <= 0x1_0000_0000 && memLen <= MAX_MEMORY
    requires skip < GET_LENGTH && pos + skip <= memLen && pos + n <= memLen
    ensures InsideMemory(base, memLen, pos, skip, n) <==>
              pos + skip + n <= memLen && (memLen > 0 ==> base + memLen < 0x1_0000_0000)
  {
    Wraps(base + memLen);
    Wraps(base + pos);
    Wraps(skip + n);
    Wraps(base + pos + skip);
    Wraps(base + pos + skip + n);
    hide U32;
  }

  lemma Wraps(x: nat)
    requires x < 0x2_0000_0000
    ensures U32(x) == if x < 0x1_0000_0000 then x else x - 0x1_0000_0000
  {
  }

  ghost function TargetOf(hasBuffer: bool, dest: array?<byte>): Target
    reads dest
  {
    if !hasBuffer then NoTarget else if dest == null then NullTarget else Target(dest[..])
  }

  /** os_parse_bertlv; base is the address of mem. Without buffer, or with buffer the address of dest; address is
      what is stored there in the end, as a position in mem, if anything is. */
  method OsParseBerTlv(base: uint32, mem: array<byte>, memLen: uint32, tlvOffset0: Option<nat>, tag: uint32,
                       offset: uint32, hasBuffer: bool, dest: array?<byte>, maxLength: uint32)
    returns (ret: uint32, address: Option<nat>, tlvOffset: Option<nat>)
    requires memLen <= mem.Length && memLen <= MAX_MEMORY && base + memLen <= 0x1_0000_0000
    requires dest != null && (offset / GET_LENGTH) % 2 == 0 ==> maxLength <= dest.Length
    modifies dest
    ensures var o := old(ParseAt(base, mem[..memLen],
                                 Request(tlvOffset0, tag, offset, TargetOf(hasBuffer, dest), maxLength)));
      && ret == o.ret && address == o.address && tlvOffset == o.tlvOffset
      && (dest != null ==> |o.copied| <= dest.Length && dest[..] == o.copied + old(dest[..])[|o.copied|..])
  {
    var check, getAddress, skip := offset >= COMPARE_WITH_BUFFER, (offset / GET_LENGTH) % 2 == 1, offset % GET_LENGTH;
    ghost var s := mem[..memLen];
    ghost var q := Request(tlvOffset0, tag, offset, TargetOf(hasBuffer, dest), maxLength);
    ret, address, tlvOffset := 0, None, tlvOffset0;
    if memLen == 0 || !hasBuffer || (!getAddress && dest == null) {
      return;
    }
    var hit;
    hit, tlvOffset := Search(mem, memLen, tlvOffset0, tag);
    FindBounds(s, tag % 256, if tlvOffset0.Some? then tlvOffset0.value else 0, 0, None);
    assert Parse(s, q) ==
      if hit.None? then Outcome(0, [], None, tlvOffset) else Use(s, hit.value, q, tlvOffset);
    assert hit.Some? ==> Use(s, hit.value, q, tlvOffset).tlvOffset == tlvOffset;
    hide Parse, Find, Use;
    if hit.Some? {
      ret, address := UseValue(base, mem, memLen, hit.value, skip, check, getAddress, dest, maxLength, q, tlvOffset);
    }
  }

  /** The checks that the request can be met with the value found. */
  method CheckValue(base: uint32, memLen: uint32, hit: Hit, skip: uint32, check: bool, maxLength: uint32,
                    ghost s: seq<byte>, ghost q: Request)
    returns (used: Option<nat>)
    requires |s| == memLen <= MAX_MEMORY && base + memLen <= 0x1_0000_0000 && hit.pos < memLen
    requires q.maxLength == maxLength && q.Skip() == skip < GET_LENGTH && q.Compare() == check
    ensures used == if base + memLen < 0x1_0000_0000 then Used(s, hit, q) else None
  {
    hide Request.Skip, Request.Compare;
    var pos, tlvlen, remlen := hit.pos, hit.len, memLen - hit.pos;
    if skip > tlvlen || skip > remlen {
      return None;
    }
    if check && tlvlen - skip != maxLength {
      return None;
    }
    var n := Min(maxLength, Min(tlvlen - skip, remlen));
    AddressChecksAreExact(base, memLen, pos, skip, n);
    hide InsideMemory;
    used := if InsideMemory(base, memLen, pos, skip, n) then Some(n) else None;
  }

  lemma SliceOfPrefix(m: seq<byte>, k: nat, lo: nat, hi: nat)
    requires lo <= hi <= k <= |m|
    ensures m[..k][lo..hi] == m[lo..hi]
  {
    assert forall i :: 0 <= i < hi - lo ==> m[..k][lo..hi][i] == m[lo + i] == m[lo..hi][i];
  }

  /** What os_parse_bertlv does with the value it has found. */
  method UseValue(base: uint32, mem: array<byte>, memLen: uint32, hit: Hit, skip: uint32, check: bool,
                  getAddress: bool, dest: array?<byte>, maxLength: uint32, ghost q: Request,
                  ghost tlvOffset: Option<nat>)
    returns (ret: uint32, address: Option<nat>)
    requires memLen <= mem.Length && memLen <= MAX_MEMORY && base + memLen <= 0x1_0000_0000 && hit.pos < memLen
    requires getAddress || (dest != null && maxLength <= dest.Length)
    requires q.maxLength == maxLength && q.Skip() == skip < GET_LENGTH && q.Compare() == check && q.Get() == getAddress
    requires q.target == if dest == null then NullTarget else Target(dest[..])
    requires Acceptable(mem[..memLen], q) && !q.Refused()
    modifies dest
    ensures var o := old(UseAt(base, mem[..memLen], hit, q, tlvOffset));
      && ret == o.ret && address == o.address
      && (dest != null ==> |o.copied| <= dest.Length && dest[..] == o.copied + old(dest[..])[|o.copied|..])
  {
    hide *;
    ghost var s := mem[..memLen];
    var pos, tlvlen, remlen := hit.pos, hit.len, memLen - hit.pos;
    ret, address := 0, None;
    var used := CheckValue(base, memLen, hit, skip, check, maxLength, s, q);
    UseBy(s, hit, q, tlvOffset);
    UseAtIs(base, s, hit, q, tlvOffset);
    if used.Some? {
      var start, n := pos + skip, used.value;
      SliceOfPrefix(mem[..], memLen, start, start + n);
      assert s == mem[..memLen];
      if getAddress {
        ret, address := Min(tlvlen - skip, remlen), Some(start);
      } else if check {
        ret := EqualBytes(dest, mem, start, n);
      } else {
        CopyFrom(mem, start, dest, n);
        ret := n;
      }
    }
  }

  lemma UseAtIs(base: uint32, mem: seq<byte>, h: Hit, q: Request, tlvOffset: Option<nat>)
    requires Acceptable(mem, q) && !q.Refused() && h.pos <= |mem|
    ensures UseAt(base, mem, h, q, tlvOffset) ==
      if base + |mem| == 0x1_0000_0000 then Outcome(0, [], None, tlvOffset) else Use(mem, h, q, tlvOffset)
  {
  }

  /** What is done with a value, by the kind of the request. */
  lemma UseBy(mem: seq<byte>, h: Hit, q: Request, tlvOffset: Option<nat>)
    requires Acceptable(mem, q) && !q.Refused() && h.pos <= |mem|
    ensures q.Get() || q.target.Target?
    ensures var used, o := Used(mem, h, q), Use(mem, h, q, tlvOffset);
      if used.None? then o == Outcome(0, [], None, tlvOffset)
      else
        var start, n := h.pos + q.Skip(), used.value;
        && start + n <= |mem| && n <= q.maxLength && q.Skip() <= h.len && q.Skip() <= |mem| - h.pos
        && (q.Get() ==> o == Outcome(Min(h.len - q.Skip(), |mem| - h.pos), [], Some(start), tlvOffset))
        && (!q.Get() && !q.Compare() ==> o == Outcome(n, mem[start..start + n], None, tlvOffset))
        && (!q.Get() && q.Compare() ==>
              n <= |q.target.bytes| &&
              o == Outcome(if q.target.bytes[..n] == mem[start..start + n] then 1 else 0, [], None, tlvOffset))
  {
  }

  /** os_secure_memcmp, with 1 for equality */
  method EqualBytes(dest: array<byte>, mem: array<byte>, from: nat, n: nat) returns (ret: nat)
    requires from + n <= mem.Length && n <= dest.Length
    ensures ret == if dest[..][..n] == mem[..][from..from + n] then 1 else 0
  {
    ret := if dest[..][..n] == mem[..][from..from + n] then 1 else 0;
  }

  /** memmove */
  method CopyFrom(mem: array<byte>, from: nat, dest: array<byte>, n: nat)
    requires from + n <= mem.Length && n <= dest.Length
    modifies dest
    ensures dest[..] == old(mem[..])[from..from + n] + old(dest[..])[n..]
  {
    forall i | 0 <= i < n { dest[i] := mem[from + i]; }
  }
}
