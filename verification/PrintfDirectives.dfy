/** What the directives of the two printf interpreters of src/os_printf.c stand for, letter by letter. */
module PrintfDirectives {
  import opened CTypes
  import opened Numerals
  import opened Conversion
  import opened CStrings
  import opened Printf

  // ------------------------------------------------------------------ widths

  /** A character that may stand between the percent sign and the letter. */
  predicate IsFlag(c: char) { '0' <= c <= '9' || c == '-' }

  /** Without the minus signs. */
  function NoMinus(s: string): string {
    if s == "" then "" else NoMinus(s[..|s| - 1]) + (if s[|s| - 1] == '-' then "" else [s[|s| - 1]])
  }

  /** The width that flags ask for: their digits as a number, of which 32 bits are kept. */
  function Width(flags: string): (w: nat)
    ensures w < 0x1_0000_0000
  {
    Val(Values(NoMinus(flags)), 10) % 0x1_0000_0000
  }

  /** Whether flags ask for zeros: a 0 among them comes while the width is still zero. */
  ghost predicate AsksForZeros(flags: string) {
    exists k :: 0 <= k < |flags| && flags[k] == '0' && Width(flags[..k]) == 0
  }

  /** Flags stand from i to j. */
  predicate FlagsAt(fmt: string, i: nat, j: nat) {
    i <= j < |fmt| && !IsFlag(fmt[j]) && forall k :: i <= k < j ==> IsFlag(fmt[k])
  }

  lemma WidthStep(flags: string, c: char)
    requires IsFlag(c)
    ensures Width(flags + [c]) ==
      if c == '-' then Width(flags) else (Width(flags) * 10 + (c as int - '0' as int)) % 0x1_0000_0000
  {
    var all := flags + [c];
    assert all[..|flags|] == flags;
    var s := NoMinus(flags);
    if c == '-' {
      assert s + "" == s;
    } else {
      assert NoMinus(all) == s + [c];
      assert Values(s + [c])[..|s|] == Values(s);
      var v, d := Val(Values(s), 10), c as int - '0' as int;
      assert Val(Values(s + [c]), 10) == v * 10 + d;
      ModStep(v, d);
    }
  }

  lemma ModStep(v: nat, d: nat)
    ensures (v % 0x1_0000_0000 * 10 + d) % 0x1_0000_0000 == (v * 10 + d) % 0x1_0000_0000
  {
    var q, r := v / 0x1_0000_0000, v % 0x1_0000_0000;
    var t := r * 10 + d;
    assert v * 10 + d == (q * 10 + t / 0x1_0000_0000) * 0x1_0000_0000 + t % 0x1_0000_0000;
    DivModUnique(q * 10 + t / 0x1_0000_0000, t % 0x1_0000_0000, 0x1_0000_0000);
  }

  lemma ZerosStep(flags: string, c: char)
    ensures AsksForZeros(flags + [c]) <==> AsksForZeros(flags) || (c == '0' && Width(flags) == 0)
  {
    var all := flags + [c];
    hide Width;
    assert forall k :: 0 <= k <= |flags| ==> all[..k] == flags[..k];
    assert flags[..|flags|] == flags;
    if AsksForZeros(flags) {
      var k :| 0 <= k < |flags| && flags[k] == '0' && Width(flags[..k]) == 0;
      assert all[k] == '0';
    }
    if c == '0' && Width(flags) == 0 {
      assert all[|flags|] == '0';
    }
  }

  lemma ReadFlag(fmt: string, i: nat, count: uint32, fill: char)
    requires i < |fmt| && IsFlag(fmt[i])
    ensures ReadSpec(fmt, i, count, fill) ==
      if fmt[i] == '-' then ReadSpec(fmt, i + 1, count, fill)
      else
        ReadSpec(fmt, i + 1, ((count as int * 10 + (fmt[i] as int - '0' as int)) % 0x1_0000_0000) as nat,
                 if fmt[i] == '0' && count == 0 then '0' else fill)
  {
  }

  /** Reading goes on behind the flags with their width and filling. */
  lemma {:induction false} ReadFlags(fmt: string, i: nat, k: nat, j: nat)
    requires FlagsAt(fmt, i, j) && i <= k <= j
    ensures ReadSpec(fmt, i, 0, ' ')
         == ReadSpec(fmt, k, Width(fmt[i..k]), if AsksForZeros(fmt[i..k]) then '0' else ' ')
    decreases k
  {
    hide *;
    FlagsInside(fmt, i, k, j);
    if k == i {
      assert fmt[i..i] == "";
      NoFlags();
    } else {
      var before, c := fmt[i..k - 1], fmt[k - 1];
      assert fmt[i..k] == before + [c];
      ReadFlags(fmt, i, k - 1, j);
      WidthStep(before, c);
      ZerosStep(before, c);
      ReadFlag(fmt, k - 1, Width(before), if AsksForZeros(before) then '0' else ' ');
    }
  }

  lemma FlagsInside(fmt: string, i: nat, k: nat, j: nat)
    requires FlagsAt(fmt, i, j) && i <= k <= j
    ensures j < |fmt| && (i < k ==> IsFlag(fmt[k - 1]))
  {
  }

  lemma NoFlags()
    ensures Width("") == 0 && !AsksForZeros("")
  {
  }

  /** A percent sign at i, with the letter of its directive at j. */
  predicate DirectiveAt(fmt: string, i: nat, j: nat) {
    i < |fmt| && fmt[i] == '%' && FlagsAt(fmt, i + 1, j)
  }

  /** The filling that the flags in between ask for. */
  ghost function FillOf(flags: string): char { if AsksForZeros(flags) then '0' else ' ' }

  lemma PlainLetter(fmt: string, i: nat, j: nat)
    requires DirectiveAt(fmt, i, j) && fmt[j] != '.' && fmt[j] != '*'
    ensures var flags := fmt[i + 1..j];
      ReadSpec(fmt, i + 1, 0, ' ') == Some(Spec(fmt[j], Width(flags), FillOf(flags), Measured, j + 1))
  {
    ReadFlags(fmt, i + 1, j, j);
    hide Width, AsksForZeros;
  }

  /** "%.*s", "%.*H" and "%.*h" */
  lemma GivenLetter(fmt: string, i: nat, j: nat)
    requires DirectiveAt(fmt, i, j) && j + 2 < |fmt| && fmt[j] == '.' && fmt[j + 1] == '*'
    requires fmt[j + 2] == 's' || fmt[j + 2] == 'H' || fmt[j + 2] == 'h'
    ensures var flags := fmt[i + 1..j];
      ReadSpec(fmt, i + 1, 0, ' ') == Some(Spec(fmt[j + 2], Width(flags), FillOf(flags), Given, j + 3))
  {
    ReadFlags(fmt, i + 1, j, j);
    hide Width, AsksForZeros;
  }

  /** "%*s" */
  lemma BlanksLetter(fmt: string, i: nat, j: nat)
    requires DirectiveAt(fmt, i, j) && j + 1 < |fmt| && fmt[j] == '*' && fmt[j + 1] == 's'
    ensures var flags := fmt[i + 1..j];
      ReadSpec(fmt, i + 1, 0, ' ') == Some(Spec('s', Width(flags), FillOf(flags), Blanks, j + 2))
  {
    ReadFlags(fmt, i + 1, j, j);
    hide Width, AsksForZeros;
  }

  /** The stream is this piece, and then what the rest of the format stands for. */
  ghost predicate Writes(stream: Option<string>, piece: string, rest: Option<string>) {
    rest.Some? && stream == Some(piece + rest.value)
  }

  lemma Written(fmt: string, i: nat, s: Spec, args: seq<Arg>, a: nat, mode: Interpreter, run: nat)
    requires i < |fmt| && fmt[i] == '%' && ReadSpec(fmt, i + 1, 0, ' ') == Some(s)
    requires Stream(fmt, i, args, a, mode, run).Some?
    ensures Output(s, args, a, mode, run).Some? && s.next <= |fmt|
    ensures var (piece, a') := Output(s, args, a, mode, run).value;
      Writes(Stream(fmt, i, args, a, mode, run), piece, Stream(fmt, s.next, args, a', mode, 0))
  {
    StreamDirective(fmt, i, args, a, mode, run);
    hide Stream, Output;
  }

  // ------------------------------------------------------------------ numbers

  /** A number in a field: zeros behind the sign or blanks in front of it, up to the width, if at most 14 are
      missing. */
  function InField(sign: string, num: string, width: nat, zeros: bool): string {
    var n := |sign| + |num|;
    var k := if n < width <= n + 14 then width - n else 0;
    if zeros then sign + Repeat('0', k) + num else Repeat(' ', k) + sign + num
  }

  /** The number that an argument is taken for: %d makes a two's complement number of it. */
  function NumberOf(c: char, n: uint32): int {
    if c == 'd' && n >= 0x8000_0000 then n as int - 0x1_0000_0000 else n as int
  }

  function BaseOf(c: char): nat { if c == 'd' || c == 'u' then 10 else 16 }

  /** What is written for it: %d and %u write base 10, %x and %p base 16, and %X base 16 with capitals. */
  function NumberText(c: char, n: uint32, width: nat, zeros: bool): string {
    var v := NumberOf(c, n);
    InField(if v < 0 then "-" else "", Numeral(if v < 0 then -v else v, BaseOf(c), c == 'X'), width, zeros)
  }

  /** A number is written in its base and field, and the text denotes it. */
  lemma NumberDirective(fmt: string, i: nat, j: nat, args: seq<Arg>, a: nat, mode: Interpreter, run: nat)
    requires DirectiveAt(fmt, i, j) && Stream(fmt, i, args, a, mode, run).Some?
    requires fmt[j] == 'd' || fmt[j] == 'u' || fmt[j] == 'x' || fmt[j] == 'X' || fmt[j] == 'p'
    ensures a < |args| && args[a].Num?
    ensures var n, c, flags := args[a].n, fmt[j], fmt[i + 1..j];
      var piece := NumberText(c, n, Width(flags), AsksForZeros(flags));
      && Writes(Stream(fmt, i, args, a, mode, run), piece, Stream(fmt, j + 1, args, a + 1, mode, 0))
      && Denoted(piece, BaseOf(c)) == NumberOf(c, n)
  {
    hide *;
    DirectiveInside(fmt, i, j);
    var flags := fmt[i + 1..j];
    var s := Spec(fmt[j], Width(flags), FillOf(flags), Measured, j + 1);
    PlainLetter(fmt, i, j);
    Written(fmt, i, s, args, a, mode, run);
    NumberOutput(s, args, a, mode, run);
    FillIs(flags);
    NumberPiece(s, args[a].n);
  }

  lemma DirectiveInside(fmt: string, i: nat, j: nat)
    requires DirectiveAt(fmt, i, j)
    ensures i < j < |fmt| && fmt[i] == '%'
  {
  }

  lemma FillIs(flags: string)
    ensures FillOf(flags) == if AsksForZeros(flags) then '0' else ' '
  {
  }

  lemma NumberOutput(s: Spec, args: seq<Arg>, a: nat, mode: Interpreter, run: nat)
    requires s.conv == 'd' || s.conv == 'u' || s.conv == 'x' || s.conv == 'X' || s.conv == 'p'
    requires Output(s, args, a, mode, run).Some?
    ensures a < |args| && args[a].Num?
    ensures Output(s, args, a, mode, run).value == (Rendering(NumberField(s, args[a].n)), a + 1)
  {
    hide Rendering, NumberField;
  }

  lemma NumberPiece(s: Spec, n: uint32)
    requires s.conv == 'd' || s.conv == 'u' || s.conv == 'x' || s.conv == 'X' || s.conv == 'p'
    requires s.fill == '0' || s.fill == ' '
    ensures var piece := Rendering(NumberField(s, n));
      piece == NumberText(s.conv, n, s.count, s.fill == '0') && Denoted(piece, BaseOf(s.conv)) == NumberOf(s.conv, n)
  {
    hide *;
    var f := NumberField(s, n);
    FieldOf(s, n);
    ValidBase(f);
    RenderingText(f);
    RenderingDenotes(f);
    InFieldIs(if f.neg then "-" else "", Numeral(f.value, f.base, f.cap), f.width, f.fill == '0');
    NumberTextIs(s.conv, n, s.count, s.fill == '0');
  }

  lemma ValidBase(f: Field)
    ensures f.base == 10 || f.base == 16 ==> Valid(f)
  {
  }

  lemma InFieldIs(sign: string, num: string, width: nat, zeros: bool)
    ensures var n := |sign| + |num|;
      var k := if n < width <= n + 14 then width - n else 0;
      InField(sign, num, width, zeros) == if zeros then sign + Repeat('0', k) + num else Repeat(' ', k) + sign + num
  {
  }

  lemma NumberTextIs(c: char, n: uint32, width: nat, zeros: bool)
    ensures BaseOf(c) == 10 || BaseOf(c) == 16
    ensures var v := NumberOf(c, n);
      NumberText(c, n, width, zeros) ==
        InField(if v < 0 then "-" else "", Numeral(if v < 0 then -v else v, BaseOf(c), c == 'X'), width, zeros)
  {
  }

  lemma FieldOf(s: Spec, n: uint32)
    requires s.conv == 'd' || s.conv == 'u' || s.conv == 'x' || s.conv == 'X' || s.conv == 'p'
    ensures var f, v := NumberField(s, n), NumberOf(s.conv, n);
      && f.base == BaseOf(s.conv) && (f.base == 10 || f.base == 16) && f.width == s.count && f.fill == s.fill
      && f.cap == (s.conv == 'X') && f.neg == (v < 0) && f.value as int == (if v < 0 then -v else v)
      && Meaning(f) == v
  {
  }

  // ------------------------------------------------------------------ texts

  /** %s writes a text up to its terminator, and blanks behind it up to the width. */
  lemma TextDirective(fmt: string, i: nat, j: nat, args: seq<Arg>, a: nat, mode: Interpreter, run: nat)
    requires DirectiveAt(fmt, i, j) && Stream(fmt, i, args, a, mode, run).Some? && fmt[j] == 's'
    ensures a < |args| && args[a].Str? && '\0' in args[a].mem
    ensures var text, w := CString(args[a].mem), Width(fmt[i + 1..j]);
      Writes(Stream(fmt, i, args, a, mode, run), text + Repeat(' ', if w > |text| then w - |text| else 0),
             Stream(fmt, j + 1, args, a + 1, mode, 0))
  {
    var flags := fmt[i + 1..j];
    var s := Spec('s', Width(flags), FillOf(flags), Measured, j + 1);
    PlainLetter(fmt, i, j);
    Written(fmt, i, s, args, a, mode, run);
    hide Stream, ReadSpec, Width, FillOf;
  }

  /** %.*s writes as many characters as the number in front of the text says. */
  lemma GivenTextDirective(fmt: string, i: nat, j: nat, args: seq<Arg>, a: nat, mode: Interpreter, run: nat)
    requires DirectiveAt(fmt, i, j) && Stream(fmt, i, args, a, mode, run).Some?
    requires j + 2 < |fmt| && fmt[j] == '.' && fmt[j + 1] == '*' && fmt[j + 2] == 's'
    ensures a + 1 < |args| && args[a].Num? && args[a + 1].Str? && args[a].n <= |args[a + 1].mem|
    ensures var n, w := args[a].n as int, Width(fmt[i + 1..j]);
      Writes(Stream(fmt, i, args, a, mode, run), args[a + 1].mem[..n] + Repeat(' ', if w > n then w - n else 0),
             Stream(fmt, j + 3, args, a + 2, mode, 0))
  {
    var flags := fmt[i + 1..j];
    var s := Spec('s', Width(flags), FillOf(flags), Given, j + 3);
    GivenLetter(fmt, i, j);
    Written(fmt, i, s, args, a, mode, run);
    hide Stream, ReadSpec, Width, FillOf;
  }

  /** Two hexadecimal digits for every byte, the higher one first. */
  ghost predicate InHex(piece: string, bytes: string, cap: bool) {
    && |piece| == 2 * |bytes|
    && forall k :: 0 <= k < |bytes| && bytes[k] as int < 256 ==>
         var digits := if cap then "0123456789ABCDEF" else "0123456789abcdef";
         piece[2 * k] == digits[bytes[k] as int / 16] && piece[2 * k + 1] == digits[bytes[k] as int % 16]
  }

  lemma HexDigits(bytes: string, cap: bool)
    ensures InHex(Hex(bytes, cap), bytes, cap)
  {
    var digits, piece := if cap then "0123456789ABCDEF" else "0123456789abcdef", Hex(bytes, cap);
    forall k | 0 <= k < |bytes| && bytes[k] as int < 256
      ensures piece[2 * k] == digits[bytes[k] as int / 16] && piece[2 * k + 1] == digits[bytes[k] as int % 16]
    {
      HexAt(bytes, cap, k);
      NibbleDigits(bytes[k], cap);
    }
  }

  lemma {:induction false} HexAt(bytes: string, cap: bool, k: nat)
    requires k < |bytes|
    ensures Hex(bytes, cap)[2 * k..2 * k + 2] == Nibbles(bytes[k], cap)
    decreases |bytes|
  {
    var init := bytes[..|bytes| - 1];
    assert Hex(bytes, cap) == Hex(init, cap) + Nibbles(bytes[|bytes| - 1], cap);
    hide Hex, Nibbles;
    if k < |init| {
      HexAt(init, cap, k);
      assert Hex(bytes, cap)[2 * k..2 * k + 2] == Hex(init, cap)[2 * k..2 * k + 2];
    }
  }

  lemma NibbleDigits(c: char, cap: bool)
    requires c as int < 256
    ensures var digits := if cap then "0123456789ABCDEF" else "0123456789abcdef";
      Nibbles(c, cap) == [digits[c as int / 16], digits[c as int % 16]]
  {
    DigitCharIs(c as int / 16, cap);
    DigitCharIs(c as int % 16, cap);
    hide DigitChar;
  }

  /** %H and %h write bytes in hexadecimal, with capitals and without; %.*H and %.*h as many as the number says. */
  lemma HexDirective(fmt: string, i: nat, j: nat, args: seq<Arg>, a: nat, mode: Interpreter, run: nat)
    returns (piece: string)
    requires DirectiveAt(fmt, i, j) && Stream(fmt, i, args, a, mode, run).Some? && (fmt[j] == 'H' || fmt[j] == 'h')
    ensures a < |args| && args[a].Str? && '\0' in args[a].mem
    ensures InHex(piece, CString(args[a].mem), fmt[j] == 'H')
    ensures Writes(Stream(fmt, i, args, a, mode, run), piece, Stream(fmt, j + 1, args, a + 1, mode, 0))
  {
    var flags := fmt[i + 1..j];
    var s := Spec(fmt[j], Width(flags), FillOf(flags), Measured, j + 1);
    PlainLetter(fmt, i, j);
    Written(fmt, i, s, args, a, mode, run);
    hide Stream, ReadSpec, Width, FillOf, Hex, InHex;
    piece := Hex(CString(args[a].mem), fmt[j] == 'H');
    HexDigits(CString(args[a].mem), fmt[j] == 'H');
  }

  lemma GivenHexDirective(fmt: string, i: nat, j: nat, args: seq<Arg>, a: nat, mode: Interpreter, run: nat)
    returns (piece: string)
    requires DirectiveAt(fmt, i, j) && Stream(fmt, i, args, a, mode, run).Some?
    requires j + 2 < |fmt| && fmt[j] == '.' && fmt[j + 1] == '*' && (fmt[j + 2] == 'H' || fmt[j + 2] == 'h')
    ensures a + 1 < |args| && args[a].Num? && args[a + 1].Str? && args[a].n <= |args[a + 1].mem|
    ensures InHex(piece, args[a + 1].mem[..args[a].n], fmt[j + 2] == 'H')
    ensures Writes(Stream(fmt, i, args, a, mode, run), piece, Stream(fmt, j + 3, args, a + 2, mode, 0))
  {
    var flags := fmt[i + 1..j];
    var s := Spec(fmt[j + 2], Width(flags), FillOf(flags), Given, j + 3);
    GivenLetter(fmt, i, j);
    Written(fmt, i, s, args, a, mode, run);
    hide Stream, ReadSpec, Width, FillOf, Hex, InHex;
    piece := Hex(args[a + 1].mem[..args[a].n], fmt[j + 2] == 'H');
    HexDigits(args[a + 1].mem[..args[a].n], fmt[j + 2] == 'H');
  }

  // ------------------------------------------------------------------ the other letters

  /** %c writes the low byte of a number, and %% a percent sign. */
  lemma CharDirective(fmt: string, i: nat, j: nat, args: seq<Arg>, a: nat, mode: Interpreter, run: nat)
    requires DirectiveAt(fmt, i, j) && Stream(fmt, i, args, a, mode, run).Some? && (fmt[j] == 'c' || fmt[j] == '%')
    ensures fmt[j] == 'c' ==>
              && a < |args| && args[a].Num?
              && Writes(Stream(fmt, i, args, a, mode, run), [(args[a].n % 256) as char],
                        Stream(fmt, j + 1, args, a + 1, mode, 0))
    ensures fmt[j] == '%' ==> Writes(Stream(fmt, i, args, a, mode, run), "%", Stream(fmt, j + 1, args, a, mode, 0))
  {
    var flags := fmt[i + 1..j];
    var s := Spec(fmt[j], Width(flags), FillOf(flags), Measured, j + 1);
    PlainLetter(fmt, i, j);
    Written(fmt, i, s, args, a, mode, run);
    hide Stream, ReadSpec, Width, FillOf;
  }

  /** What is written for an error. */
  function ErrorText(mode: Interpreter): string {
    match mode
    case Streaming => "ERROR"
    case Bounded(debug) => if debug then "ERROR" else ""
  }

  /** A letter that begins none of the directives; a '.' is followed by "*s", "*H" or "*h" otherwise, and a '*' by
      's'. */
  predicate NoLetter(fmt: string, j: nat)
    requires j < |fmt|
  {
    && fmt[j] !in {'c', 'd', 'u', 'x', 'X', 'p', 's', 'H', 'h', '%'}
    && !(fmt[j] == '.' && j + 2 < |fmt| && fmt[j + 1] == '*' && fmt[j + 2] in {'s', 'H', 'h'})
    && !(fmt[j] == '*' && j + 1 < |fmt| && fmt[j + 1] == 's')
  }

  lemma UnknownLetter(fmt: string, i: nat, j: nat)
    requires DirectiveAt(fmt, i, j) && NoLetter(fmt, j)
    ensures var flags := fmt[i + 1..j];
      ReadSpec(fmt, i + 1, 0, ' ') == Some(Spec(fmt[j], Width(flags), FillOf(flags), Measured, j + 1))
  {
    ReadFlags(fmt, i + 1, j, j);
    hide Width, AsksForZeros;
  }

  lemma OtherOutput(s: Spec, args: seq<Arg>, a: nat, mode: Interpreter, run: nat)
    ensures s.conv !in {'c', 'd', 'u', 'x', 'X', 'p', 's', 'H', 'h', '%'} ==>
              Output(s, args, a, mode, run) == Some((ErrorText(mode), a))
  {
  }

  /** It is an error, which takes no argument. */
  lemma OtherDirective(fmt: string, i: nat, j: nat, args: seq<Arg>, a: nat, mode: Interpreter, run: nat)
    requires DirectiveAt(fmt, i, j) && Stream(fmt, i, args, a, mode, run).Some? && NoLetter(fmt, j)
    ensures Writes(Stream(fmt, i, args, a, mode, run), ErrorText(mode), Stream(fmt, j + 1, args, a, mode, 0))
  {
    var flags := fmt[i + 1..j];
    var s := Spec(fmt[j], Width(flags), FillOf(flags), Measured, j + 1);
    UnknownLetter(fmt, i, j);
    OtherOutput(s, args, a, mode, run);
    hide *;
    DirectiveInside(fmt, i, j);
    Written(fmt, i, s, args, a, mode, run);
  }

  /** %*s with an empty text writes blanks, one more to a stream than to memory, and then some for a width; with
      another text it is an error. */
  lemma BlanksDirective(fmt: string, i: nat, j: nat, args: seq<Arg>, a: nat, mode: Interpreter, run: nat)
    requires DirectiveAt(fmt, i, j) && Stream(fmt, i, args, a, mode, run).Some?
    requires j + 1 < |fmt| && fmt[j] == '*' && fmt[j + 1] == 's'
    ensures a + 1 < |args| && args[a].Num? && args[a + 1].Str? && args[a + 1].mem != ""
    ensures var n, w := args[a].n as int, Width(fmt[i + 1..j]);
      var blanks := (if mode == Streaming then n + 1 else n) + (if w > run then w - run else 0);
      Writes(Stream(fmt, i, args, a, mode, run),
             if args[a + 1].mem[0] == '\0' then Repeat(' ', blanks) else ErrorText(mode),
             Stream(fmt, j + 2, args, a + 2, mode, 0))
  {
    var flags := fmt[i + 1..j];
    var s := Spec('s', Width(flags), FillOf(flags), Blanks, j + 2);
    BlanksLetter(fmt, i, j);
    Written(fmt, i, s, args, a, mode, run);
    hide Stream, ReadSpec, Width, FillOf;
    var n := args[a].n as int + if mode == Streaming then 1 else 0;
    var e := if s.count > run then s.count - run else 0;
    assert Repeat(' ', n) + Repeat(' ', e) == Repeat(' ', n + e);
  }
}
