/** Derivation paths: the printer and the reader of lib_standard_app/bip32.c, and the parser of install_params.py. */
module Bip32 {
  import opened CTypes
  import opened Numerals
  import opened Conversion
  import opened CStrings
  import opened Printf
  import opened Format

  const MAX_BIP32_PATH := 10
  const HARDENED := 0x8000_0000

  // ------------------------------------------------------------------ the text of a path

  predicate Hardened(word: uint32) { word >= HARDENED }

  /** One step of a path, with a quote if it is hardened. */
  function StepText(word: uint32): string {
    Decimal(word % HARDENED) + if Hardened(word) then "'" else ""
  }

  function PathText(path: seq<uint32>): string
    requires path != []
  {
    if |path| == 1 then StepText(path[0]) else StepText(path[0]) + ("/" + PathText(path[1..]))
  }

  // ------------------------------------------------------------------ bip32_path_format

  /** What snprintf is used for here. */
  lemma FormatsUsed(v: uint32, debug: bool)
    ensures Stream("%u\0", 0, [Num(v)], 0, Bounded(debug), 0) == Some(Decimal(v)) && !UsesPairs("%u\0", 0)
    ensures Stream("'\0", 0, [], 0, Bounded(debug), 0) == Some("'") && !UsesPairs("'\0", 0)
    ensures Stream("/\0", 0, [], 0, Bounded(debug), 0) == Some("/") && !UsesPairs("/\0", 0)
  {
    NumberUnpadded(v);
    hide Rendering, Decimal;
    var u, mode := "%u\0", Bounded(debug);
    assert ReadSpec(u, 1, 0, ' ') == Some(Spec('u', 0, ' ', Measured, 2));
    assert Stream(u, 2, [Num(v)], 1, mode, 0) == Some("");
    assert Decimal(v) + "" == Decimal(v);
    var q := "'\0";
    assert Stream(q, 1, [], 0, mode, 1) == Some("") && ['\''] + "" == "'";
    var s := "/\0";
    assert Stream(s, 1, [], 0, mode, 1) == Some("") && ['/'] + "" == "/";
  }

  lemma NumberUnpadded(v: uint32)
    ensures Rendering(Field(v, false, 10, false, 0, ' ')) == Decimal(v) && |Decimal(v)| <= 10
  {
    var f := Field(v, false, 10, false, 0, ' ');
    PadCountIs(f);
    AtMostTenDigits(f);
    NumeralChars(v, 10, false);
    assert Repeat(' ', 0) + "" == "";
    assert "" + Numeral(v, 10, false) == Numeral(v, 10, false);
  }

  /** What the memory looks like behind a call of snprintf with a text that is not empty. */
  lemma AfterSnprintf(now: string, room: Room, text: string, k: nat)
    requires Holds(now, room, text, k, false) && text != "" && '\0' !in text
    ensures |now| == |room.before| && k < room.n && k == Min(|text|, room.n - 1)
    ensures now[..room.at + k] == room.before[..room.at] + text[..k] && now[room.at + k] == '\0'
    ensures room.at + room.n <= |now| && now[room.at + room.n..] == room.before[room.at + room.n..]
    ensures '\0' in now[room.at..] && Length(now[room.at..]) == k
  {
    var at, rest := room.at, now[room.at..];
    assert rest[k] == '\0' && rest[..k] == text[..k];
    CStringIs(rest, text[..k]);
    assert |CString(rest)| == Length(rest);
  }

  /** The buffer begins with as much of the text as leaves room for a terminator. */
  ghost predicate Begun(now: string, text: string, offset: nat, outLen: nat) {
    offset < outLen <= |now| && offset == Min(|text|, outLen - 1) && now[..offset] == text[..offset]
  }

  /** After a use of snprintf: the text with its terminator is there, or all of the buffer has been cleared. */
  ghost predicate Appended(now: string, text: string, ok: bool, offset: nat, outLen: nat)
    requires outLen <= |now|
  {
    if ok then Begun(now, text, offset, outLen) && now[offset] == '\0'
    else forall k :: 0 <= k < outLen ==> now[k] == '\0'
  }

  lemma AppendedIs(now: string, text: string, ok: bool, offset: nat, outLen: nat)
    requires outLen <= |now| && Appended(now, text, ok, offset, outLen)
    ensures ok ==> Begun(now, text, offset, outLen) && offset < outLen && now[offset] == '\0'
    ensures !ok ==> forall k :: 0 <= k < outLen ==> now[k] == '\0'
  {
  }

  lemma IsAppended(now: string, text: string, ok: bool, offset: nat, outLen: nat)
    requires outLen <= |now|
    requires ok ==> Begun(now, text, offset, outLen) && offset < outLen && now[offset] == '\0'
    requires !ok ==> forall k :: 0 <= k < outLen ==> now[k] == '\0'
    ensures Appended(now, text, ok, offset, outLen)
  {
  }

  /** One use of snprintf in bip32_path_format, with the check behind it. It fails exactly if there is room for
      nothing but the terminator; otherwise the piece may be cut. */
  method Append(out: array<char>, outLen: nat, offset0: nat, fmt: string, args: seq<Arg>, debug: bool,
                ghost sofar: string, ghost piece: string)
    returns (ok: bool, offset: nat)
    requires outLen <= out.Length && Begun(out[..], sofar, offset0, outLen)
    requires Stream(fmt, 0, args, 0, Bounded(debug), 0) == Some(piece) && !UsesPairs(fmt, 0)
    requires piece != "" && '\0' !in piece
    modifies out
    ensures ok <==> |sofar| + 2 <= outLen
    ensures Appended(out[..], sofar + piece, ok, offset, outLen)
    ensures out[..][outLen..] == old(out[..])[outLen..]
  {
    hide *;
    BegunBounds(out[..], sofar, offset0, outLen);
    ghost var room := Room(out[..], offset0, outLen - offset0);
    ghost var k;
    ghost var ret;
    ret, k := Snprintf(out, offset0, outLen - offset0, fmt, args, debug);
    ghost var now := out[..];
    AfterSnprintf(now, room, piece, k);
    BegunNext(now, room, outLen, sofar, piece, k);
    RestSame(now, room, outLen);
    var written := Measure(out, offset0, now);
    ok, offset := written != 0 && written < outLen - offset0, offset0 + written;
    if !ok {
      Wipe(out, outLen);
    }
    IsAppended(out[..], sofar + piece, ok, offset, outLen);
  }

  /** strlen */
  method Measure(out: array<char>, offset: nat, ghost now: string) returns (written: nat)
    requires now == out[..] && offset <= |now| && '\0' in now[offset..]
    ensures now == out[..] && written == Length(now[offset..])
  {
    assert now[offset..] == out[offset..];
    written := StrLen(out, offset);
  }

  lemma BegunNext(now: string, room: Room, outLen: nat, sofar: string, piece: string, k: nat)
    requires Begun(room.before, sofar, room.at, outLen) && room.n == outLen - room.at && |now| == |room.before|
    requires k < room.n && k == Min(|piece|, room.n - 1) && piece != ""
    requires now[..room.at + k] == room.before[..room.at] + piece[..k]
    ensures k == 0 <==> |sofar| + 2 > outLen
    ensures k > 0 ==> Begun(now, sofar + piece, room.at + k, outLen)
  {
    if k > 0 {
      assert room.at == |sofar|;
      assert (sofar + piece)[..room.at + k] == sofar + piece[..k] && sofar[..room.at] == sofar;
    }
  }

  lemma BegunBounds(now: string, text: string, offset: nat, outLen: nat)
    requires Begun(now, text, offset, outLen)
    ensures offset < outLen <= |now|
  {
  }

  lemma RestSame(now: string, room: Room, outLen: nat)
    requires |now| == |room.before| && room.at + room.n == outLen <= |now|
    requires now[room.at + room.n..] == room.before[room.at + room.n..]
    ensures now[outLen..] == room.before[outLen..]
  {
  }

  /** memset with zeros */
  method Wipe(out: array<char>, n: nat)
    requires n <= out.Length
    modifies out
    ensures (forall i :: 0 <= i < n ==> out[i] == '\0') && out[..][n..] == old(out[..])[n..]
  {
    forall i | 0 <= i < n { out[i] := '\0'; }
  }

  /** What step i contributes: a slash follows all but the last. */
  function Piece(path: seq<uint32>, i: nat): string
    requires i < |path|
  {
    StepText(path[i]) + if i == |path| - 1 then "" else "/"
  }

  /** Where in the text of a step its last use of snprintf starts. */
  function LastUse(path: seq<uint32>, i: nat): nat
    requires i < |path|
  {
    if i < |path| - 1 then |StepText(path[i])| else if Hardened(path[i]) then |Decimal(path[i] % HARDENED)| else 0
  }

  /** Where in the text of a path the last use of snprintf starts. */
  function LastStart(path: seq<uint32>): nat
    requires path != []
  {
    if |path| == 1 then LastUse(path, 0) else |Piece(path, 0)| + LastStart(path[1..])
  }

  lemma PieceParts(path: seq<uint32>, i: nat)
    requires i < |path|
    ensures var num := Decimal(path[i] % HARDENED);
      && num != "" && '\0' !in num
      && StepText(path[i]) == num + (if Hardened(path[i]) then "'" else "")
      && Piece(path, i) == StepText(path[i]) + (if i == |path| - 1 then "" else "/")
      && LastUse(path, i) == (if i < |path| - 1 then |StepText(path[i])| else if Hardened(path[i]) then |num| else 0)
  {
    DecimalNotEmpty(path[i] % HARDENED);
  }

  /** One step of bip32_path_format. */
  method AppendStep(out: array<char>, outLen: nat, offset0: nat, path: seq<uint32>, i: nat, debug: bool,
                    ghost sofar: string)
    returns (ok: bool, offset: nat)
    requires i < |path| && outLen <= out.Length && Begun(out[..], sofar, offset0, outLen)
    modifies out
    ensures ok <==> |sofar| + LastUse(path, i) + 2 <= outLen
    ensures Appended(out[..], sofar + Piece(path, i), ok, offset, outLen)
    ensures out[..][outLen..] == old(out[..])[outLen..]
  {
    var word := path[i] % HARDENED;
    PieceParts(path, i);
    hide *;
    ghost var text := sofar + Decimal(word);
    FormatsUsed(word, debug);
    ok, offset := Append(out, outLen, offset0, "%u\0", [Num(word)], debug, sofar, Decimal(word));
    AppendedIs(out[..], text, ok, offset, outLen);
    if ok && Hardened(path[i]) {
      ok, offset := Append(out, outLen, offset, "'\0", [], debug, text, "'");
      text := text + "'";
      AppendedIs(out[..], text, ok, offset, outLen);
    }
    if ok && i != |path| - 1 {
      ok, offset := Append(out, outLen, offset, "/\0", [], debug, text, "/");
      text := text + "/";
    }
    assert ok ==> text == sofar + Piece(path, i);
    if !ok { StillCleared(out[..], text, sofar + Piece(path, i), offset, outLen); }
  }

  lemma StillCleared(now: string, text: string, other: string, offset: nat, outLen: nat)
    requires outLen <= |now| && Appended(now, text, false, offset, outLen)
    ensures Appended(now, other, false, offset, outLen)
  {
  }

  /** The first use of snprintf with no room at all: nothing is written, and the check behind it fails. */
  method AppendNowhere(out: array<char>, word: uint32, debug: bool) returns (ok: bool)
    requires '\0' in out[..]
    modifies out
    ensures !ok && out[..] == old(out[..])
  {
    FormatsUsed(word % HARDENED, debug);
    hide *;
    ghost var k;
    ghost var ret;
    ret, k := Snprintf(out, 0, 0, "%u\0", [Num(word % HARDENED)], debug);
    assert out[0..] == out[..];
    var written := StrLen(out, 0);
    ok := written != 0 && written < 0;
  }

  lemma PathFromStep(path: seq<uint32>, i: nat)
    requires i < |path|
    ensures var last := i == |path| - 1;
      && PathText(path[i..]) == (if last then Piece(path, i) else Piece(path, i) + PathText(path[i + 1..]))
      && LastStart(path[i..]) == (if last then LastUse(path, i) else |Piece(path, i)| + LastStart(path[i + 1..]))
      && (!last ==> LastUse(path, i) < |Piece(path, i)|)
  {
    var rest := path[i..];
    assert rest[0] == path[i] && rest[1..] == path[i + 1..];
    hide Decimal;
    var step := StepText(path[i]);
    if i == |path| - 1 {
      assert step + "" == step;
    } else {
      assert step + ("/" + PathText(path[i + 1..])) == (step + "/") + PathText(path[i + 1..]);
    }
  }

  lemma {:induction false} PathHasNoZero(path: seq<uint32>)
    requires path != []
    ensures '\0' !in PathText(path)
    decreases |path|
  {
    DecimalNotEmpty(path[0] % HARDENED);
    hide Decimal;
    if |path| > 1 { PathHasNoZero(path[1..]); }
  }

  /** bip32_path_format. It fails exactly if the last use of snprintf finds no room for a character, so it may succeed
      with the last number cut. The source measures the string in the destination even if the size is given as zero. */
  method Bip32PathFormat(path: seq<uint32>, out: array<char>, outLen: nat, debug: bool) returns (ok: bool)
    requires outLen <= out.Length && (outLen == 0 && 1 <= |path| <= MAX_BIP32_PATH ==> '\0' in out[..])
    modifies out
    ensures !(1 <= |path| <= MAX_BIP32_PATH) ==> !ok && out[..] == old(out[..])
    ensures 1 <= |path| <= MAX_BIP32_PATH ==> (ok <==> LastStart(path) + 2 <= outLen)
    ensures ok ==>
              && '\0' in out[..outLen]
              && CString(out[..outLen]) == PathText(path)[..Min(|PathText(path)|, outLen - 1)]
    ensures 1 <= |path| <= MAX_BIP32_PATH && !ok ==> forall k :: 0 <= k < outLen ==> out[k] == '\0'
    ensures out[..][outLen..] == old(out[..])[outLen..]
  {
    ok := 1 <= |path| <= MAX_BIP32_PATH;
    if !ok {
      return;
    }
    if outLen == 0 {
      ok := AppendNowhere(out, path[0], debug);
      return;
    }
    StartOfPath(out[..], outLen, path);
    hide *;
    var offset: nat, i: nat := 0, 0;
    ghost var sofar := "";
    while i < |path|
      invariant i <= |path| && Begun(out[..], sofar, offset, outLen) && Walked(path, i, sofar, outLen)
      invariant out[..][outLen..] == old(out[..])[outLen..]
      invariant i == |path| ==> offset < outLen && out[offset] == '\0'
    {
      WalkOn(path, i, sofar, outLen);
      ok, offset := AppendStep(out, outLen, offset, path, i, debug, sofar);
      AppendedIs(out[..], sofar + Piece(path, i), ok, offset, outLen);
      if !ok {
        return;
      }
      BegunBounds(out[..], sofar + Piece(path, i), offset, outLen);
      sofar := sofar + Piece(path, i);
      i := i + 1;
    }
    PathHasNoZero(path);
    WalkEnd(path, sofar, outLen);
    EndOfPath(out[..], PathText(path), offset, outLen);
    assert out[..][..outLen] == out[..outLen];
  }

  /** The first i steps of a path, and nothing else, have been written, with room for all their uses of snprintf. */
  ghost predicate Walked(path: seq<uint32>, i: nat, sofar: string, outLen: nat) {
    && i <= |path| && path != []
    && (i < |path| ==> PathText(path) == sofar + PathText(path[i..])
                       && LastStart(path) == |sofar| + LastStart(path[i..]))
    && (i == |path| ==> PathText(path) == sofar && LastStart(path) + 2 <= outLen)
  }

  lemma WalkOn(path: seq<uint32>, i: nat, sofar: string, outLen: nat)
    requires Walked(path, i, sofar, outLen) && i < |path|
    ensures if |sofar| + LastUse(path, i) + 2 <= outLen then Walked(path, i + 1, sofar + Piece(path, i), outLen)
            else LastStart(path) + 2 > outLen
  {
    PathFromStep(path, i);
    hide PathText, LastStart, LastUse, Piece;
    var piece := Piece(path, i);
    if i < |path| - 1 {
      assert sofar + (piece + PathText(path[i + 1..])) == (sofar + piece) + PathText(path[i + 1..]);
    }
  }

  lemma WalkEnd(path: seq<uint32>, sofar: string, outLen: nat)
    requires Walked(path, |path|, sofar, outLen)
    ensures PathText(path) == sofar && LastStart(path) + 2 <= outLen
  {
  }

  lemma StartOfPath(now: string, outLen: nat, path: seq<uint32>)
    requires 0 < outLen <= |now| && path != []
    ensures Begun(now, "", 0, outLen) && Walked(path, 0, "", outLen)
  {
    assert path[0..] == path && "" + PathText(path) == PathText(path);
  }

  lemma EndOfPath(now: string, text: string, offset: nat, outLen: nat)
    requires Begun(now, text, offset, outLen) && now[offset] == '\0' && '\0' !in text
    ensures offset == Min(|text|, outLen - 1) && 0 <= offset <= |text|
    ensures '\0' in now[..outLen] && CString(now[..outLen]) == text[..offset]
  {
    var mem := now[..outLen];
    assert mem[offset] == '\0' && mem[..offset] == text[..offset];
    CStringIs(mem, text[..offset]);
  }

  /** The last use of snprintf writes the quote of a hardened last step, or the last number. */
  lemma {:induction false} LastStartIs(path: seq<uint32>)
    requires path != []
    ensures var last := path[|path| - 1];
      |PathText(path)| - LastStart(path) == if Hardened(last) then 1 else |Decimal(last % HARDENED)|
    decreases |path|
  {
    hide Decimal;
    if |path| > 1 {
      LastStartIs(path[1..]);
      PathFromStep(path, 0);
      assert path[0..] == path;
    }
  }

  /** Exactly when bip32_path_format reports success for a text that has been cut: the last step is not hardened,
      the buffer does not hold the text with its terminator, but it holds one digit of the last number. */
  lemma AcceptedButCut(path: seq<uint32>, outLen: nat)
    requires path != []
    ensures var last := path[|path| - 1];
      LastStart(path) + 2 <= outLen <= |PathText(path)| <==>
        !Hardened(last) && |PathText(path)| - |Decimal(last % HARDENED)| + 2 <= outLen <= |PathText(path)|
    ensures outLen > |PathText(path)| ==> LastStart(path) + 2 <= outLen
  {
    LastStartIs(path);
    DecimalNotEmpty(path[|path| - 1] % HARDENED);
  }

  // ------------------------------------------------------------------ parse_bip32_path

  /** str.split('/') */
  function Split(s: string): (es: seq<string>)
    ensures es != []
  {
    if s == "" then [""]
    else if s[0] == '/' then [""] + Split(s[1..])
    else
      var es := Split(s[1..]);
      [[s[0]] + es[0]] + es[1..]
  }

  /** Blanks, among the characters below 128. */
  predicate IsSpace(c: char) { c == ' ' || '\t' <= c <= '\r' }

  /** Without the blanks at both ends. */
  function Stripped(s: string): string
    decreases |s|
  {
    if s != "" && IsSpace(s[0]) then Stripped(s[1..])
    else if s != "" && IsSpace(s[|s| - 1]) then Stripped(s[..|s| - 1])
    else s
  }

  /** Digits, with single underscores between some of them. */
  predicate Grouped(s: string) {
    s != "" && IsDigit(s[0]) && forall i :: 0 <= i < |s| ==> DigitOrBetween(s, i)
  }

  predicate DigitOrBetween(s: string, i: nat)
    requires i < |s|
  {
    IsDigit(s[i]) || (s[i] == '_' && i + 1 < |s| && IsDigit(s[i + 1]))
  }

  function Ungrouped(s: string): string {
    if s == "" then "" else (if s[0] == '_' then "" else [s[0]]) + Ungrouped(s[1..])
  }

  /** int, for strings of characters below 128. */
  function ParseInt(s: string): Option<int> {
    var t := Stripped(s);
    var digits := if t != "" && (t[0] == '+' || t[0] == '-') then t[1..] else t;
    if !Grouped(digits) then None
    else
      var n: int := Val(Values(Ungrouped(digits)), 10);
      Some(if t[0] == '-' then -n else n)
  }

  /** 0x80000000 | n */
  function SetHardened(n: nat): nat { if (n / HARDENED) % 2 == 1 then n else n + HARDENED }

  /** The number of an element; None if it cannot be read or packed. A negative number stays negative when it is
      hardened, and cannot be packed. */
  function ParseElement(e: string): Option<uint32> {
    var hardened := e != "" && e[|e| - 1] == '\'';
    var m := ParseInt(if hardened then e[..|e| - 1] else e);
    if m.None? || m.value < 0 then None
    else
      var n := if hardened then SetHardened(m.value) else m.value;
      if n < 0x1_0000_0000 then Some(n) else None
  }

  /** struct.pack(">I", w) */
  function Pack(w: uint32): (bs: seq<byte>)
    ensures |bs| == 4
  {
    [(w / 0x100_0000) as byte, ((w / 0x1_0000) % 256) as byte, ((w / 0x100) % 256) as byte, (w % 256) as byte]
  }

  function PackAll(ws: seq<uint32>): (bs: seq<byte>)
    ensures |bs| == 4 * |ws|
  {
    if ws == [] then [] else PackAll(ws[..|ws| - 1]) + Pack(ws[|ws| - 1])
  }

  function ParseElements(es: seq<string>): Option<seq<uint32>> {
    if es == [] then Some([])
    else
      var init, last := ParseElements(es[..|es| - 1]), ParseElement(es[|es| - 1]);
      if init.None? || last.None? then None else Some(init.value + [last.value])
  }

  /** parse_bip32_path: the number of elements in one byte, and the elements in four bytes each. */
  function ParsePath(s: string): Option<seq<byte>> {
    var es := Split(s);
    var ws := ParseElements(es);
    if |es| > 255 || ws.None? then None else Some([|es| as byte] + PackAll(ws.value))
  }

  /** One more element. */
  lemma ParseElementsStep(es: seq<string>, i: nat)
    requires i < |es|
    ensures var init, last := ParseElements(es[..i]), ParseElement(es[i]);
      ParseElements(es[..i + 1]) == if init.None? || last.None? then None else Some(init.value + [last.value])
  {
    assert es[..i + 1][..i] == es[..i];
  }

  lemma PackAllStep(ws: seq<uint32>, w: uint32)
    ensures PackAll(ws + [w]) == PackAll(ws) + Pack(w)
  {
    assert (ws + [w])[..|ws|] == ws;
  }

  lemma {:induction false} ParseElementsPrefix(es: seq<string>, k: nat)
    requires k <= |es| && ParseElements(es[..k]).None?
    ensures ParseElements(es).None?
    decreases |es|
  {
    if k < |es| {
      assert es[..|es| - 1][..k] == es[..k];
      ParseElementsPrefix(es[..|es| - 1], k);
    } else {
      assert es[..k] == es;
    }
  }

  lemma ParsePathIs(s: string)
    ensures var es := Split(s);
      var ws := ParseElements(es);
      ParsePath(s) == if |es| > 255 || ws.None? then None else Some([|es| as byte] + PackAll(ws.value))
    ensures ParseElements([]) == Some([]) && PackAll([]) == []
  {
  }

  /** The loop of parse_bip32_path; None stands for an exception. */
  method ParseBip32Path(path: string) returns (result: Option<seq<byte>>)
    ensures result == ParsePath(path)
  {
    hide *;
    ParsePathIs(path);
    var elements := Split(path);
    if |elements| > 255 {
      return None;
    }
    var count := [|elements| as byte];
    var bytes := count;
    var i := 0;
    assert elements[..0] == [];
    while i < |elements|
      invariant 0 <= i <= |elements| && ParseElements(elements[..i]).Some?
      invariant bytes == count + PackAll(ParseElements(elements[..i]).value)
    {
      ParseElementsStep(elements, i);
      var w := ParseElement(elements[i]);
      if w.None? {
        ParseElementsPrefix(elements, i + 1);
        return None;
      }
      PackAllStep(ParseElements(elements[..i]).value, w.value);
      bytes := bytes + Pack(w.value);
      i := i + 1;
    }
    assert elements[..i] == elements;
    result := Some(bytes);
  }

  // ------------------------------------------------------------------ bip32_path_read

  /** read_u32_be */
  function ReadWord(bs: seq<byte>, off: nat): (w: uint32)
    requires off + 4 <= |bs|
  {
    var b0: nat, b1: nat, b2: nat, b3: nat := bs[off], bs[off + 1], bs[off + 2], bs[off + 3];
    b0 * 0x100_0000 + b1 * 0x1_0000 + b2 * 0x100 + b3
  }

  /** n words, one after another. */
  function ReadWords(bs: seq<byte>, n: nat): (ws: seq<uint32>)
    requires 4 * n <= |bs|
    ensures |ws| == n && forall i :: 0 <= i < n ==> ws[i] == ReadWord(bs, 4 * i)
  {
    seq(n, i requires 0 <= i < n => ReadWord(bs, 4 * i))
  }

  /** bip32_path_read: it fails if the number of words is not one to ten or the input is too short for them. */
  method Bip32PathRead(input: array<byte>, inLen: nat, out: array<uint32>, outLen: nat) returns (ok: bool)
    requires inLen <= input.Length && outLen <= out.Length
    modifies out
    ensures ok <==> 1 <= outLen <= MAX_BIP32_PATH && 4 * outLen <= inLen
    ensures ok ==> out[..outLen] == ReadWords(input[..inLen], outLen)
    ensures out[outLen..] == old(out[outLen..])
    ensures !(1 <= outLen <= MAX_BIP32_PATH) ==> out[..] == old(out[..])
  {
    if outLen == 0 || outLen > MAX_BIP32_PATH {
      return false;
    }
    hide ReadWord;
    var offset, i := 0, 0;
    while i < outLen
      invariant 0 <= i <= outLen && offset == 4 * i <= inLen
      invariant forall k :: 0 <= k < i ==> out[k] == ReadWord(input[..inLen], 4 * k)
      invariant forall k :: outLen <= k < out.Length ==> out[k] == old(out[k])
    {
      if offset + 4 > inLen {
        return false;
      }
      out[i] := ReadWord(input[..inLen], offset);
      offset := offset + 4;
      i := i + 1;
    }
    ok := true;
  }

  // ------------------------------------------------------------------ the round trip

  lemma PackReadsBack(w: uint32)
    ensures ReadWord(Pack(w), 0) == w
  {
    var a, b, c := w / 0x100, w / 0x1_0000, w / 0x100_0000;
    assert b == a / 0x100 && c == b / 0x100;
  }

  lemma {:induction false} PackedAt(ws: seq<uint32>, i: nat)
    requires i < |ws|
    ensures ReadWord(PackAll(ws), 4 * i) == ws[i]
    decreases |ws|
  {
    var last := |ws| - 1;
    if i < last {
      PackedAt(ws[..last], i);
      SameWord(PackAll(ws[..last]), PackAll(ws), 4 * i, 4 * i);
    } else {
      PackReadsBack(ws[last]);
      SameWord(Pack(ws[last]), PackAll(ws), 0, 4 * last);
    }
  }

  lemma SameWord(x: seq<byte>, y: seq<byte>, i: nat, j: nat)
    requires i + 4 <= |x| && j + 4 <= |y| && x[i..i + 4] == y[j..j + 4]
    ensures ReadWord(x, i) == ReadWord(y, j)
  {
    var z := x[i..i + 4];
    assert z[0] == x[i] == y[j] && z[1] == x[i + 1] == y[j + 1];
    assert z[2] == x[i + 2] == y[j + 2] && z[3] == x[i + 3] == y[j + 3];
  }

  /** The elements of a printed path are its steps. */
  lemma {:induction false} SplitPath(path: seq<uint32>)
    requires path != []
    ensures |Split(PathText(path))| == |path|
    ensures forall i :: 0 <= i < |path| ==> Split(PathText(path))[i] == StepText(path[i])
    decreases |path|
  {
    StepHasNoSlash(path[0]);
    if |path| == 1 {
      SplitPlain(StepText(path[0]));
    } else {
      SplitPath(path[1..]);
      hide Decimal, StepText;
      SplitFirst(StepText(path[0]), PathText(path[1..]));
    }
  }

  lemma StepHasNoSlash(word: uint32)
    ensures '/' !in StepText(word)
  {
    DecimalNotEmpty(word % HARDENED);
    hide Decimal;
  }

  lemma {:induction false} SplitPlain(s: string)
    requires '/' !in s
    ensures Split(s) == [s]
    decreases |s|
  {
    if s != "" {
      assert s[0] in s;
      SplitPlain(s[1..]);
      assert [s[0]] + s[1..] == s;
    }
  }

  lemma {:induction false} SplitFirst(x: string, rest: string)
    requires '/' !in x
    ensures Split(x + ("/" + rest)) == [x] + Split(rest)
    decreases |x|
  {
    var s := x + ("/" + rest);
    if x == "" {
      assert s[0] == '/' && s[1..] == rest;
    } else {
      assert x[0] in x;
      assert s[1..] == x[1..] + ("/" + rest);
      SplitFirst(x[1..], rest);
      assert [x[0]] + x[1..] == x;
      assert ([x[1..]] + Split(rest))[1..] == Split(rest);
    }
  }

  /** A printed step is read as the word it was printed for, hardened or not. */
  lemma StepReadsBack(word: uint32)
    ensures ParseElement(StepText(word)) == Some(word)
  {
    var v := word % HARDENED;
    var num := Decimal(v);
    NumberReadsBack(v);
    hide Decimal, ParseInt, SetHardened;
    HardenedAgain(word);
    if Hardened(word) {
      assert (num + "'")[..|num|] == num;
    } else {
      assert num + "" == num;
    }
  }

  lemma HardenedAgain(word: uint32)
    ensures if Hardened(word) then SetHardened(word % HARDENED) == word else word % HARDENED == word
  {
  }

  lemma {:induction false} UngroupedPlain(s: string)
    requires '_' !in s
    ensures Ungrouped(s) == s
  {
    if s != "" {
      UngroupedPlain(s[1..]);
      assert s == [s[0]] + s[1..];
    }
  }

  lemma PlainIsStripped(s: string)
    requires s != "" && !IsSpace(s[0]) && !IsSpace(s[|s| - 1])
    ensures Stripped(s) == s
  {
  }

  lemma PlainIsGrouped(s: string)
    requires s != "" && forall i :: 0 <= i < |s| ==> '0' <= s[i] <= '9'
    ensures Grouped(s) && '_' !in s && !IsSpace(s[0]) && !IsSpace(s[|s| - 1])
  {
  }

  /** A plain number is read as it stands. */
  lemma PlainNumber(s: string)
    requires s != "" && forall i :: 0 <= i < |s| ==> '0' <= s[i] <= '9'
    ensures ParseInt(s) == Some(Val(Values(s), 10))
  {
    hide Val, Values, Ungrouped, Grouped, Stripped, IsSpace;
    PlainIsGrouped(s);
    PlainIsStripped(s);
    UngroupedPlain(s);
  }

  lemma NumberReadsBack(v: nat)
    ensures var num := Decimal(v);
      num != "" && num[|num| - 1] != '\'' && ParseInt(num) == Some(v)
  {
    DecimalNotEmpty(v);
    NumeralReadsBack(v, 10, false);
    hide Decimal, Val, ParseInt;
    PlainNumber(Decimal(v));
  }

  lemma {:induction false} StepsReadBack(es: seq<string>, path: seq<uint32>)
    requires |es| == |path| && forall i :: 0 <= i < |path| ==> es[i] == StepText(path[i])
    ensures ParseElements(es) == Some(path)
    decreases |path|
  {
    hide StepText, ParseElement;
    if path != [] {
      var last := |path| - 1;
      StepsReadBack(es[..last], path[..last]);
      StepReadsBack(path[last]);
      assert path[..last] + [path[last]] == path;
    }
  }

  /** Parsing a printed path gives its length and its words, from which reading recovers the path. */
  lemma RoundTrip(path: seq<uint32>)
    requires 1 <= |path| <= 255
    ensures var bytes := ParsePath(PathText(path));
      && bytes.Some? && |bytes.value| == 1 + 4 * |path| && bytes.value[0] == |path|
      && ReadWords(bytes.value[1..], |path|) == path
  {
    hide *;
    SplitPath(path);
    StepsReadBack(Split(PathText(path)), path);
    ParsedPath(PathText(path), path);
    forall i | 0 <= i < |path| ensures ReadWord(PackAll(path), 4 * i) == path[i] {
      PackedAt(path, i);
    }
  }

  lemma ParsedPath(s: string, path: seq<uint32>)
    requires |Split(s)| == |path| <= 255 && ParseElements(Split(s)) == Some(path)
    ensures ParsePath(s).Some? && ParsePath(s).value == [|path| as byte] + PackAll(path)
    ensures ParsePath(s).value[1..] == PackAll(path)
  {
  }

  // ------------------------------------------------------------------ all three together

  /** A number whose last digits are cut off is a smaller number. */
  lemma {:induction false} CutDecimal(v: nat, n: nat) returns (w: nat)
    requires 0 < n < |Decimal(v)|
    ensures w < v && Decimal(w) == Decimal(v)[..n]
    decreases v
  {
    LastDigit(v);
    hide Decimal;
    w := v / 10;
    if n < |Decimal(v)| - 1 {
      w := CutDecimal(w, n);
    }
  }

  /** What is left of a path's text when its last number is cut is the text of another path. */
  lemma {:induction false} CutPath(path: seq<uint32>, n: nat) returns (other: seq<uint32>)
    requires path != [] && !Hardened(path[|path| - 1])
    requires |PathText(path)| - |Decimal(path[|path| - 1])| < n < |PathText(path)|
    ensures |other| == |path| && other != path && PathText(other) == PathText(path)[..n]
  {
    hide Decimal;
    if |path| == 1 {
      var w := CutDecimal(path[0], n);
      other := [w];
    } else {
      var first := StepText(path[0]) + "/";
      LastIsShort(path[1..]);
      var rest := CutPath(path[1..], n - |first|);
      other := [path[0]] + rest;
      assert other[1..] == rest;
      assert PathText(path) == first + PathText(path[1..]);
    }
  }

  lemma {:induction false} LastIsShort(path: seq<uint32>)
    requires path != [] && !Hardened(path[|path| - 1])
    ensures |Decimal(path[|path| - 1])| <= |PathText(path)|
  {
    hide Decimal;
    if |path| > 1 {
      LastIsShort(path[1..]);
    }
  }

  /** A text that has been accepted is the path's own exactly if it is not cut; otherwise it is another path's. */
  lemma AcceptedText(path: seq<uint32>, outLen: nat) returns (other: seq<uint32>)
    requires path != [] && LastStart(path) + 2 <= outLen
    ensures |other| == |path| && (other == path <==> outLen > |PathText(path)|)
    ensures PathText(other) == PathText(path)[..Min(|PathText(path)|, outLen - 1)]
  {
    AcceptedButCut(path, outLen);
    hide *;
    WholeText(PathText(path), outLen);
    other := path;
    if outLen <= |PathText(path)| {
      HardenedAgain(path[|path| - 1]);
      other := CutPath(path, outLen - 1);
    }
  }

  lemma WholeText(text: string, outLen: nat)
    requires outLen > 0
    ensures Min(|text|, outLen - 1) == if outLen > |text| then |text| else outLen - 1
    ensures text[..|text|] == text
  {
  }

  /** The text of a path, if bip32_path_format succeeds: it is the text of the same number of words, and of the path
      itself exactly if there is room for it. */
  method Print(path: seq<uint32>, outLen: nat, debug: bool) returns (text: Option<string>, ghost other: seq<uint32>)
    ensures text.Some? ==> 1 <= |path| == |other| <= MAX_BIP32_PATH && text.value == PathText(other)
    ensures text.Some? && other == path <==> 1 <= |path| <= MAX_BIP32_PATH && outLen > |PathText(path)|
  {
    var out := new char[outLen + 1](_ => '\0');
    assert out[..][outLen] == '\0';
    other := path;
    if 1 <= |path| <= MAX_BIP32_PATH {
      AcceptedButCut(path, outLen);
      if LastStart(path) + 2 <= outLen {
        other := AcceptedText(path, outLen);
      }
    }
    hide *;
    var ok := Bip32PathFormat(path, out, outLen, debug);
    text := if ok then Some(CString(out[..outLen])) else None;
  }

  /** The words read from the bytes that a text is parsed to, as many as the first byte says. */
  method ParseAndRead(text: string) returns (read: Option<seq<uint32>>)
    ensures var bytes := ParsePath(text);
      bytes.Some? && bytes.value != [] && 1 <= bytes.value[0] <= MAX_BIP32_PATH &&
      |bytes.value| == 1 + 4 * bytes.value[0] as nat ==>
        read == Some(ReadWords(bytes.value[1..], bytes.value[0] as nat))
  {
    hide ParsePath, ReadWord;
    var bytes := ParseBip32Path(text);
    if bytes.None? || bytes.value == [] {
      return None;
    }
    var packed := bytes.value[1..];
    var input := new byte[|packed|](i requires 0 <= i < |packed| => packed[i]);
    assert input[..|packed|] == packed;
    var words := new uint32[bytes.value[0] as nat](_ => 0);
    var ok := Bip32PathRead(input, |packed|, words, words.Length);
    read := if ok then Some(words[..words.Length]) else None;
  }

  /** A path is printed, the text is parsed, and its words are read again: exactly with room for the text and its
      terminator the path comes back. */
  method PrintParseRead(path: seq<uint32>, outLen: nat, debug: bool) returns (read: Option<seq<uint32>>)
    ensures read == Some(path) <==> 1 <= |path| <= 10 && outLen > |PathText(path)|
  {
    ghost var other;
    var text;
    text, other := Print(path, outLen, debug);
    if text.None? {
      return None;
    }
    RoundTrip(other);
    hide ParsePath, PathText, ReadWords;
    read := ParseAndRead(text.value);
  }
}
