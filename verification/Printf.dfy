/** The two printf interpreters of src/os_printf.c: what a format and its arguments stand for, and the streaming and
    the bounded interpreter. Text is a sequence of characters of one byte each; a format is the memory from its first
    character on, of which what stands behind the terminator is read only if a percent sign is in front of it. */
module Printf {
  import opened CTypes
  import opened Conversion
  import opened CStrings

  /** One of the variable arguments: a number, or the memory behind a pointer to characters. */
  datatype Arg = Num(n: uint32) | Str(mem: string)

  // ------------------------------------------------------------------ directives

  /** How many characters %s, %H and %h take: as many as precede a zero, a number given with ".*", or, for "*s", none:
      the number is one of blanks. */
  datatype Extent = Measured | Given | Blanks

  /** A conversion specification: its letter, the digit count, the fill character, how long a text is, and the index
      behind it. */
  datatype Spec = Spec(conv: char, count: uint32, fill: char, extent: Extent, next: nat)

  /** mcu_usb_printf, which reports errors in the text, and snprintf, which does so if HAVE_SNPRINTF_DEBUG is set. */
  datatype Interpreter = Streaming | Bounded(debug: bool)
  {
    function Error(): string { if this == Bounded(false) then "" else "ERROR" }
  }

  predicate IsDigit(c: char) { '0' <= c <= '9' }

  /** The count and the fill character after one more digit; the count wraps around. */
  function AddDigit(count: uint32, c: char): uint32
    requires IsDigit(c)
  {
    U32(count * 10 + (c as int - '0' as int))
  }

  function AddFill(count: uint32, fill: char, c: char): char { if c == '0' && count == 0 then '0' else fill }

  predicate IsHex(c: char) { c == 'H' || c == 'h' }

  predicate TakesLength(c: char) { c == 's' || IsHex(c) }

  /** The specification behind a percent sign, from i on; None if the memory ends. A '.' or a '*' that is not understood
      is itself the letter, and so is the terminator. */
  function ReadSpec(fmt: string, i: nat, count: uint32, fill: char): (s: Option<Spec>)
    requires i <= |fmt|
    ensures s.Some? ==> i < s.value.next <= |fmt|
    decreases |fmt| - i
  {
    if i == |fmt| then None
    else if IsDigit(fmt[i]) then ReadSpec(fmt, i + 1, AddDigit(count, fmt[i]), AddFill(count, fill, fmt[i]))
    else if fmt[i] == '-' then ReadSpec(fmt, i + 1, count, fill)
    else if fmt[i] == '.' && i + 2 < |fmt| && fmt[i + 1] == '*' && TakesLength(fmt[i + 2]) then
      Some(Spec(fmt[i + 2], count, fill, Given, i + 3))
    else if fmt[i] == '*' && i + 1 < |fmt| && fmt[i + 1] == 's' then Some(Spec('s', count, fill, Blanks, i + 2))
    else Some(Spec(fmt[i], count, fill, Measured, i + 1))
  }

  // ------------------------------------------------------------------ what a directive stands for

  function Nibbles(c: char, cap: bool): (s: string)
    ensures |s| == 2
  {
    [DigitChar((c as int / 16) % 16, cap), DigitChar(c as int % 16, cap)]
  }

  function Hex(bytes: string, cap: bool): (s: string)
    ensures |s| == 2 * |bytes|
  {
    if bytes == "" then "" else Hex(bytes[..|bytes| - 1], cap) + Nibbles(bytes[|bytes| - 1], cap)
  }

  /** The text given to %s, %H or %h, from the a-th argument on: its characters, and the argument behind it. */
  function TextArg(given: bool, args: seq<Arg>, a: nat): Option<(string, nat)> {
    if given then
      if a + 1 < |args| && args[a].Num? && args[a + 1].Str? && args[a].n <= |args[a + 1].mem|
      then Some((args[a + 1].mem[..args[a].n], a + 2)) else None
    else
      if a < |args| && args[a].Str? && '\0' in args[a].mem
      then Some((args[a].mem[..Length(args[a].mem)], a + 1)) else None
  }

  /** The arguments of "*s" from the a-th on: a number of blanks, and a text that is to be empty. */
  predicate HasBlanksArgs(args: seq<Arg>, a: nat) {
    a + 1 < |args| && args[a].Num? && args[a + 1].Str? && args[a + 1].mem != ""
  }

  function Excess(x: nat, y: nat): nat { if x > y then x - y else 0 }

  /** The blanks for "*s": mcu_usb_printf sends one more than it is asked for. The count is then taken to be that of a
      text as long as the run of ordinary characters in front of the directive. */
  function BlanksFor(n: nat, count: nat, mode: Interpreter, run: nat): string {
    Repeat(' ', n + if mode.Streaming? then 1 else 0) + Repeat(' ', Excess(count, run))
  }

  /** The field for %d, %u, %x, %X and %p; the magnitude of a negative number is that of its two's complement. */
  function NumberField(s: Spec, n: uint32): (f: Field)
    ensures Valid(f) && (f.fill == s.fill)
  {
    if s.conv == 'd' then
      if n >= 0x8000_0000 then Field(0x1_0000_0000 - n, true, 10, false, s.count, s.fill)
      else Field(n, false, 10, false, s.count, s.fill)
    else if s.conv == 'u' then Field(n, false, 10, false, s.count, s.fill)
    else Field(n, false, 16, s.conv == 'X', s.count, s.fill)
  }

  predicate IsNumber(c: char) { c in {'d', 'u', 'x', 'X', 'p'} }

  /** What a directive behind a run of ordinary characters writes, and the argument behind its arguments. None: the
      caller has passed other arguments than the directive takes, or the number does not fit the 16 bytes that it is
      converted in. */
  function Output(s: Spec, args: seq<Arg>, a: nat, mode: Interpreter, run: nat): Option<(string, nat)> {
    if s.conv == 'c' then
      if a < |args| && args[a].Num? then Some(([(args[a].n % 256) as char], a + 1)) else None
    else if IsNumber(s.conv) then
      if a < |args| && args[a].Num? && |Rendering(NumberField(s, args[a].n))| <= 16
      then Some((Rendering(NumberField(s, args[a].n)), a + 1)) else None
    else if s.conv == 's' && s.extent.Blanks? then
      if !HasBlanksArgs(args, a) then None
      else Some((if args[a + 1].mem[0] == '\0' then BlanksFor(args[a].n, s.count, mode, run) else mode.Error(), a + 2))
    else if TakesLength(s.conv) then
      var t := TextArg(s.extent.Given?, args, a);
      if t.None? then None
      else if s.conv == 's' then Some((Padded(t.value.0, s.count), t.value.1))
      else Some((Hex(t.value.0, s.conv == 'H'), t.value.1))
    else if s.conv == '%' then Some(("%", a))
    else Some((mode.Error(), a))
  }

  /** A text, filled up behind with spaces. */
  function Padded(text: string, count: nat): string { text + Repeat(' ', Excess(count, |text|)) }

  /** What is written for a format, from i on, behind a run of ordinary characters, with the arguments from the a-th
      on; None if the memory ends before a terminator comes. */
  function Stream(fmt: string, i: nat, args: seq<Arg>, a: nat, mode: Interpreter, run: nat): Option<string>
    requires i <= |fmt|
    decreases |fmt| - i
  {
    if i == |fmt| then None
    else if fmt[i] == '\0' then Some("")
    else if fmt[i] != '%' then
      var rest := Stream(fmt, i + 1, args, a, mode, run + 1);
      if rest.None? then None else Some([fmt[i]] + rest.value)
    else
      var s := ReadSpec(fmt, i + 1, 0, ' ');
      if s.None? then None
      else
        var out := Output(s.value, args, a, mode, run);
        if out.None? then None
        else
          var rest := Stream(fmt, s.value.next, args, out.value.1, mode, 0);
          if rest.None? then None else Some(out.value.0 + rest.value)
  }

  /** Whether bytes in hexadecimal are among the directives. */
  predicate UsesPairs(fmt: string, i: nat)
    requires i <= |fmt|
    decreases |fmt| - i
  {
    if i == |fmt| || fmt[i] == '\0' then false
    else if fmt[i] != '%' then UsesPairs(fmt, i + 1)
    else
      var s := ReadSpec(fmt, i + 1, 0, ' ');
      s.Some? && (IsHex(s.value.conv) || UsesPairs(fmt, s.value.next))
  }

  // ------------------------------------------------------------------ scanning

  /** The run of ordinary characters at i. */
  method ScanLiteral(fmt: string, i: nat, ghost args: seq<Arg>, ghost a: nat, ghost mode: Interpreter) returns (j: nat)
    requires i <= |fmt| && Stream(fmt, i, args, a, mode, 0).Some?
    ensures i <= j < |fmt| && (fmt[j] == '%' || fmt[j] == '\0')
    ensures Stream(fmt, i, args, a, mode, 0) == Prefixed(fmt[i..j], Stream(fmt, j, args, a, mode, j - i))
    ensures UsesPairs(fmt, i) == UsesPairs(fmt, j)
  {
    hide *;
    j := i;
    PrefixedNothing(Stream(fmt, i, args, a, mode, 0));
    StreamInside(fmt, i, args, a, mode, 0);
    assert fmt[i..i] == "";
    while fmt[j] != '%' && fmt[j] != '\0'
      invariant i <= j < |fmt| && Stream(fmt, j, args, a, mode, j - i).Some?
      invariant Stream(fmt, i, args, a, mode, 0) == Prefixed(fmt[i..j], Stream(fmt, j, args, a, mode, j - i))
      invariant UsesPairs(fmt, i) == UsesPairs(fmt, j)
      decreases |fmt| - j
    {
      StreamLiteral(fmt, j, args, a, mode, j - i);
      PrefixedTwice(fmt[i..j], [fmt[j]], Stream(fmt, j + 1, args, a, mode, j + 1 - i));
      UsesPairsLater(fmt, j);
      StreamInside(fmt, j + 1, args, a, mode, j + 1 - i);
      assert fmt[i..j + 1] == fmt[i..j] + [fmt[j]];
      j := j + 1;
    }
  }

  lemma UsesPairsLater(fmt: string, i: nat)
    requires i < |fmt| && fmt[i] != '%' && fmt[i] != '\0'
    ensures UsesPairs(fmt, i) == UsesPairs(fmt, i + 1)
  {
  }

  function Prefixed(s: string, rest: Option<string>): Option<string> {
    if rest.None? then None else Some(s + rest.value)
  }

  lemma PrefixedNothing(rest: Option<string>)
    ensures Prefixed("", rest) == rest
  {
    if rest.Some? { assert "" + rest.value == rest.value; }
  }

  lemma StreamLiteral(fmt: string, i: nat, args: seq<Arg>, a: nat, mode: Interpreter, run: nat)
    requires i < |fmt| && fmt[i] != '%' && fmt[i] != '\0'
    ensures Stream(fmt, i, args, a, mode, run) == Prefixed([fmt[i]], Stream(fmt, i + 1, args, a, mode, run + 1))
  {
  }

  lemma StreamInside(fmt: string, i: nat, args: seq<Arg>, a: nat, mode: Interpreter, run: nat)
    requires i <= |fmt| && Stream(fmt, i, args, a, mode, run).Some?
    ensures i < |fmt|
  {
  }

  lemma StreamDirective(fmt: string, i: nat, args: seq<Arg>, a: nat, mode: Interpreter, run: nat)
    requires i < |fmt| && fmt[i] == '%' && Stream(fmt, i, args, a, mode, run).Some?
    ensures var s := ReadSpec(fmt, i + 1, 0, ' ');
      && s.Some? && Output(s.value, args, a, mode, run).Some?
      && var (out, a') := Output(s.value, args, a, mode, run).value;
         Stream(fmt, i, args, a, mode, run) == Prefixed(out, Stream(fmt, s.value.next, args, a', mode, 0))
  {
  }

  /** The loop through `again` up to the letter of a directive. */
  method ScanSpec(fmt: string, i0: nat) returns (s: Spec)
    requires i0 <= |fmt| && ReadSpec(fmt, i0, 0, ' ').Some?
    ensures Some(s) == ReadSpec(fmt, i0, 0, ' ')
  {
    var i, count: uint32, fill := i0, 0, ' ';
    ReadSpecStep(fmt, i, count, fill);
    hide ReadSpec, U32, AddDigit, AddFill;
    while IsDigit(fmt[i]) || fmt[i] == '-'
      invariant i < |fmt| && ReadSpec(fmt, i, count, fill) == ReadSpec(fmt, i0, 0, ' ')
      decreases |fmt| - i
    {
      ReadSpecStep(fmt, i, count, fill);
      if IsDigit(fmt[i]) {
        AddedDigit(count, fill, fmt[i]);
        if fmt[i] == '0' && count == 0 {
          fill := '0';
        }
        count := U32(U32(count * 10) + (fmt[i] as int - '0' as int));
      }
      i := i + 1;
      ReadSpecStep(fmt, i, count, fill);
    }
    ReadSpecStep(fmt, i, count, fill);
    if fmt[i] == '.' && i + 2 < |fmt| && fmt[i + 1] == '*' && TakesLength(fmt[i + 2]) {
      s := Spec(fmt[i + 2], count, fill, Given, i + 3);
    } else if fmt[i] == '*' && i + 1 < |fmt| && fmt[i + 1] == 's' {
      s := Spec('s', count, fill, Blanks, i + 2);
    } else {
      s := Spec(fmt[i], count, fill, Measured, i + 1);
    }
  }

  lemma ReadSpecStep(fmt: string, i: nat, count: uint32, fill: char)
    requires i <= |fmt| && ReadSpec(fmt, i, count, fill).Some?
    ensures i < |fmt|
    ensures ReadSpec(fmt, i, count, fill) ==
      if IsDigit(fmt[i]) then ReadSpec(fmt, i + 1, AddDigit(count, fmt[i]), AddFill(count, fill, fmt[i]))
      else if fmt[i] == '-' then ReadSpec(fmt, i + 1, count, fill)
      else if fmt[i] == '.' && i + 2 < |fmt| && fmt[i + 1] == '*' && TakesLength(fmt[i + 2]) then
        Some(Spec(fmt[i + 2], count, fill, Given, i + 3))
      else if fmt[i] == '*' && i + 1 < |fmt| && fmt[i + 1] == 's' then Some(Spec('s', count, fill, Blanks, i + 2))
      else Some(Spec(fmt[i], count, fill, Measured, i + 1))
  {
    hide AddDigit, AddFill, IsDigit, TakesLength;
  }

  /** A digit in the terms of the source. */
  lemma AddedDigit(count: uint32, fill: char, c: char)
    requires IsDigit(c)
    ensures AddDigit(count, c) == U32(U32(count * 10) + (c as int - '0' as int))
    ensures AddFill(count, fill, c) == if c == '0' && count == 0 then '0' else fill
  {
  }

  // ------------------------------------------------------------------ the streaming interpreter

  /** The text and the length that are taken from the arguments for %s, %H and %h. */
  method TakeText(given: bool, args: seq<Arg>, a: nat) returns (mem: string, n: nat, a': nat)
    requires TextArg(given, args, a).Some?
    ensures n <= |mem| && TextArg(given, args, a) == Some((mem[..n], a'))
  {
    a' := a;
    if given {
      n := args[a'].n;
      a' := a' + 1;
      mem := args[a'].mem;
    } else {
      mem := args[a'].mem;
      n := 0;
      while mem[n] != '\0'
        invariant n <= Length(mem)
        decreases |mem| - n
      {
        n := n + 1;
      }
    }
    a' := a' + 1;
  }

  /** The nibbles of n characters, put together in pcBuf and sent whenever it is full. */
  method SendHex(mem: string, n: nat, cap: bool, sent0: string) returns (sent: string)
    requires n <= |mem|
    ensures sent == sent0 + Hex(mem[..n], cap)
  {
    var pcBuf := new char[16];
    var idx, count := 0, 0;
    sent := sent0;
    while count < n
      invariant 0 <= count <= n && 0 <= idx && idx + 1 < 16
      invariant sent + pcBuf[..idx] == sent0 + Hex(mem[..count], cap)
    {
      HexNext(mem, count, cap);
      ghost var before, hex, pair := pcBuf[..idx], Hex(mem[..count], cap), Nibbles(mem[count], cap);
      pcBuf[idx] := DigitChar((mem[count] as int / 16) % 16, cap);
      pcBuf[idx + 1] := DigitChar(mem[count] as int % 16, cap);
      idx := idx + 2;
      assert pcBuf[..idx] == before + pair;
      assert sent + (before + pair) == (sent + before) + pair && (sent0 + hex) + pair == sent0 + (hex + pair);
      count := count + 1;
      if idx + 1 >= 16 {
        sent := sent + pcBuf[..idx];
        idx := 0;
        assert sent + pcBuf[..idx] == sent;
      }
    }
    if idx != 0 {
      sent := sent + pcBuf[..idx];
    }
  }

  lemma HexNext(mem: string, k: nat, cap: bool)
    requires k < |mem|
    ensures Hex(mem[..k + 1], cap) == Hex(mem[..k], cap) + Nibbles(mem[k], cap)
  {
    assert mem[..k + 1][..k] == mem[..k];
  }

  /** n spaces, one by one. */
  method SendSpaces(n: nat, sent0: string) returns (sent: string)
    ensures sent == sent0 + Repeat(' ', n)
  {
    sent := sent0;
    var count := n;
    while count > 0
      invariant 0 <= count <= n && sent == sent0 + Repeat(' ', n - count)
    {
      sent := sent + " ";
      count := count - 1;
    }
  }

  /** The blanks for "*s": the first one is sent before the number is looked at. */
  method SendBlanks(n: nat, count: nat, run: nat, sent0: string) returns (sent: string)
    ensures sent == sent0 + BlanksFor(n, count, Streaming, run)
  {
    sent := SendSpaces(n, sent0 + " ");
    sent := SendSpaces(Excess(count, run), sent);
    ghost var blanks, padding := Repeat(' ', n), Repeat(' ', Excess(count, run));
    assert " " + blanks == Repeat(' ', n + 1);
    assert ((sent0 + " ") + blanks) + padding == sent0 + ((" " + blanks) + padding);
    assert BlanksFor(n, count, Streaming, run) == (" " + blanks) + padding;
  }

  /** The text of %s, and the spaces behind it. */
  method SendText(mem: string, n: nat, count: nat, sent0: string) returns (sent: string)
    requires n <= |mem|
    ensures sent == sent0 + Padded(mem[..n], count)
  {
    ghost var text := mem[..n];
    sent := SendSpaces(Excess(count, n), sent0 + mem[..n]);
    assert |text| == n && sent == sent0 + (text + Repeat(' ', Excess(count, |text|)));
  }

  /** One directive of mcu_usb_printf. */
  method SendDirective(s: Spec, args: seq<Arg>, a: nat, run: nat, sent0: string) returns (sent: string, a': nat)
    requires Output(s, args, a, Streaming, run).Some?
    ensures var (out, next) := Output(s, args, a, Streaming, run).value;
      sent == sent0 + out && a' == next
  {
    hide BlanksFor, Padded, Hex;
    sent, a' := sent0, a;
    if s.conv == 'c' {
      sent := sent + [(args[a'].n % 256) as char];
      a' := a' + 1;
    } else if IsNumber(s.conv) {
      var pcBuf := new char[16];
      var pos := Convert(NumberField(s, args[a'].n), pcBuf);
      sent := sent + pcBuf[..pos];
      a' := a' + 1;
    } else if s.conv == 's' && s.extent.Blanks? {
      if args[a' + 1].mem[0] == '\0' {
        sent := SendBlanks(args[a'].n, s.count, run, sent);
      } else {
        sent := sent + "ERROR";
      }
      a' := a' + 2;
    } else if TakesLength(s.conv) {
      var mem, n;
      mem, n, a' := TakeText(s.extent.Given?, args, a);
      if s.conv == 's' {
        sent := SendText(mem, n, s.count, sent);
      } else {
        sent := SendHex(mem, n, s.conv == 'H', sent);
      }
    } else if s.conv == '%' {
      sent := sent + "%";
    } else {
      sent := sent + "ERROR";
    }
  }

  /** mcu_usb_printf sends exactly what the format stands for. */
  method McuUsbPrintf(fmt: string, args: seq<Arg>) returns (sent: string)
    requires Stream(fmt, 0, args, 0, Streaming, 0).Some?
    ensures Some(sent) == Stream(fmt, 0, args, 0, Streaming, 0)
  {
    hide *;
    var i, a := 0, 0;
    sent := "";
    PrefixedNothing(Stream(fmt, 0, args, 0, Streaming, 0));
    StreamInside(fmt, 0, args, 0, Streaming, 0);
    while fmt[i] != '\0'
      invariant 0 <= i < |fmt| && 0 <= a && Stream(fmt, i, args, a, Streaming, 0).Some?
      invariant Stream(fmt, 0, args, 0, Streaming, 0) == Prefixed(sent, Stream(fmt, i, args, a, Streaming, 0))
      decreases |fmt| - i
    {
      i, a, sent := SendNext(fmt, args, i, a, sent);
      StreamInside(fmt, i, args, a, Streaming, 0);
    }
    StreamEnd(fmt, i, args, a, Streaming, 0);
    PrefixedByAll(sent);
  }

  /** A run of ordinary characters, and the directive behind it, if there is one. */
  method SendNext(fmt: string, args: seq<Arg>, i0: nat, a0: nat, sent0: string)
    returns (i: nat, a: nat, sent: string)
    requires i0 < |fmt| && fmt[i0] != '\0' && Stream(fmt, i0, args, a0, Streaming, 0).Some?
    ensures i0 < i <= |fmt| && Stream(fmt, i, args, a, Streaming, 0).Some?
    ensures Prefixed(sent0, Stream(fmt, i0, args, a0, Streaming, 0)) ==
            Prefixed(sent, Stream(fmt, i, args, a, Streaming, 0))
  {
    hide *;
    a := a0;
    i := ScanLiteral(fmt, i0, args, a0, Streaming);
    var run := i - i0;
    PrefixedTwice(sent0, fmt[i0..i], Stream(fmt, i, args, a, Streaming, run));
    sent := sent0 + fmt[i0..i];
    StreamEnd(fmt, i, args, a, Streaming, run);
    if fmt[i] == '%' {
      StreamDirective(fmt, i, args, a, Streaming, run);
      var s := ScanSpec(fmt, i + 1);
      ghost var (out, next) := Output(s, args, a, Streaming, run).value;
      PrefixedTwice(sent, out, Stream(fmt, s.next, args, next, Streaming, 0));
      sent, a := SendDirective(s, args, a, run, sent);
      i := s.next;
    }
  }

  lemma PrefixedTwice(s: string, t: string, rest: Option<string>)
    ensures Prefixed(s, Prefixed(t, rest)) == Prefixed(s + t, rest)
    ensures Prefixed(t, rest).Some? <==> rest.Some?
  {
    if rest.Some? { assert s + (t + rest.value) == (s + t) + rest.value; }
  }

  lemma StreamEnd(fmt: string, i: nat, args: seq<Arg>, a: nat, mode: Interpreter, run: nat)
    requires i < |fmt|
    ensures fmt[i] == '\0' ==> Stream(fmt, i, args, a, mode, run) == Stream(fmt, i, args, a, mode, 0) == Some("")
  {
  }

  lemma PrefixedByAll(sent: string)
    ensures Prefixed(sent, Some("")) == Some(sent)
  {
    assert sent + "" == sent;
  }

  // ------------------------------------------------------------------ the bounded interpreter

  /** What has been written of a text in a room of the given size: all of it, or as much as there was room, or, when
      pairs of nibbles are written and the next pair does not fit, one character less. */
  predicate Cut(k: nat, text: string, size: nat, pairs: bool) {
    k <= |text| && k <= size && (k < |text| ==> k == size || (pairs && k + 1 == size && |text| > size))
  }

  /** memmove of at most `size` characters to position pos. */
  method Put(str: array<char>, pos: nat, size: nat, text: string) returns (k: nat)
    requires pos + size <= str.Length
    modifies str
    ensures k == (if |text| < size then |text| else size) && Cut(k, text, size, false)
    ensures str[..] == Written(old(str[..]), pos, text[..k])
  {
    k := if |text| < size then |text| else size;
    forall i | 0 <= i < k { str[pos + i] := text[i]; }
  }

  /** The pairs of nibbles, as far as there is room for whole pairs. */
  method PutHex(str: array<char>, pos: nat, size: nat, mem: string, n: nat, cap: bool) returns (k: nat, full: bool)
    requires pos + size <= str.Length && n <= |mem| && size > 0
    modifies str
    ensures Cut(k, Hex(mem[..n], cap), size, true) && str[..] == Written(old(str[..]), pos, Hex(mem[..n], cap)[..k])
    ensures k % 2 == 0 && (full <==> (k == size || k < |Hex(mem[..n], cap)|))
  {
    hide *;
    k := 0;
    var count := 0;
    ghost var before := str[..];
    NoPairs(before, pos, mem, cap);
    while count < n
      invariant 0 <= count <= n && k == 2 * count <= size && (count < n ==> k < size)
      invariant PairsPut(str[..], before, pos, mem, count, cap)
    {
      if size - k < 2 {
        break;
      }
      PutPair(str, pos + k, mem[count], cap, before, pos, mem, count);
      k := k + 2;
      count := count + 1;
      if size - k == 0 {
        break;
      }
    }
    PairsAreCut(str[..], before, pos, mem, count, n, cap, size);
    full := size - k == 0 || count < n;
  }

  /** The pairs for the first `count` characters have been written at pos. */
  ghost predicate PairsPut(now: string, before: string, pos: nat, mem: string, count: nat, cap: bool) {
    count <= |mem| && pos + 2 * count <= |before| && now == Written(before, pos, Hex(mem[..count], cap))
  }

  lemma NoPairs(before: string, pos: nat, mem: string, cap: bool)
    requires pos <= |before|
    ensures PairsPut(before, before, pos, mem, 0, cap)
  {
    NothingWritten(before, pos);
  }

  lemma PairsAreCut(now: string, before: string, pos: nat, mem: string, count: nat, n: nat, cap: bool, size: nat)
    requires PairsPut(now, before, pos, mem, count, cap) && count <= n <= |mem| && 2 * count <= size
    requires count < n ==> 2 * count + 1 >= size
    ensures var k, out := 2 * count, Hex(mem[..n], cap);
      Cut(k, out, size, true) && now == Written(before, pos, out[..k])
  {
    HexPrefix(mem, count, n, cap);
  }

  lemma NothingWritten(before: string, pos: nat)
    requires pos <= |before|
    ensures Written(before, pos, "") == before
  {
  }

  /** One more pair. */
  method PutPair(str: array<char>, at: nat, c: char, cap: bool, ghost before: string, ghost pos: nat,
                 ghost mem: string, ghost count: nat)
    requires count < |mem| && c == mem[count] && at == pos + 2 * count && at + 2 <= str.Length == |before|
    requires PairsPut(str[..], before, pos, mem, count, cap)
    modifies str
    ensures PairsPut(str[..], before, pos, mem, count + 1, cap)
  {
    ghost var was := str[..];
    str[at] := DigitChar((c as int / 16) % 16, cap);
    str[at + 1] := DigitChar(c as int % 16, cap);
    assert str[..] == Written(was, at, Nibbles(c, cap));
    hide Written, Hex, Nibbles;
    WrittenTwice(before, pos, Hex(mem[..count], cap), Nibbles(c, cap));
    HexNext(mem, count, cap);
  }

  lemma {:induction false} HexPrefix(mem: string, count: nat, n: nat, cap: bool)
    requires count <= n <= |mem|
    ensures Hex(mem[..n], cap)[..2 * count] == Hex(mem[..count], cap)
    decreases n
  {
    if count < n {
      HexNext(mem, n - 1, cap);
      HexPrefix(mem, count, n - 1, cap);
      assert Hex(mem[..n], cap)[..2 * count] == Hex(mem[..n - 1], cap)[..2 * count];
    } else {
      assert Hex(mem[..n], cap)[..2 * n] == Hex(mem[..n], cap);
    }
  }

  /** One directive of snprintf: how many characters it writes, and whether the buffer is full then. */
  method PutDirective(str: array<char>, pos: nat, size: nat, s: Spec, args: seq<Arg>, a: nat, debug: bool, run: nat)
    returns (k: nat, full: bool, a': nat)
    requires pos + size <= str.Length && size > 0 && Output(s, args, a, Bounded(debug), run).Some?
    modifies str
    ensures var (out, next) := Output(s, args, a, Bounded(debug), run).value;
      && Cut(k, out, size, IsHex(s.conv)) && str[..] == Written(old(str[..]), pos, out[..k])
      && (full <==> (k == size || k < |out|)) && (!full ==> a' == next) && (IsHex(s.conv) ==> k % 2 == 0)
  {
    hide BlanksFor, Padded, Hex, Written, Rendering, NumberField;
    a' := a;
    if IsHex(s.conv) {
      var mem, n;
      mem, n, a' := TakeText(s.extent.Given?, args, a);
      k, full := PutHex(str, pos, size, mem, n, s.conv == 'H');
    } else {
      if s.conv == 'c' {
        k := Put(str, pos, size, [(args[a'].n % 256) as char]);
        a' := a' + 1;
      } else if IsNumber(s.conv) {
        var pcBuf := new char[16];
        var ulPos := Convert(NumberField(s, args[a'].n), pcBuf);
        k := Put(str, pos, size, pcBuf[..ulPos]);
        a' := a' + 1;
      } else if s.conv == 's' && s.extent.Blanks? {
        if args[a' + 1].mem[0] == '\0' {
          k := PutBlanks(str, pos, size, args[a'].n, s.count, run, debug);
        } else {
          k := PutError(str, pos, size, debug);
        }
        a' := a' + 2;
      } else if s.conv == 's' {
        var mem, n;
        mem, n, a' := TakeText(s.extent.Given?, args, a);
        k := PutText(str, pos, size, mem[..n], s.count);
      } else if s.conv == '%' {
        k := Put(str, pos, size, "%");
      } else {
        k := PutError(str, pos, size, debug);
      }
      full := size - k == 0;
    }
  }

  method PutError(str: array<char>, pos: nat, size: nat, debug: bool) returns (k: nat)
    requires pos + size <= str.Length && size > 0
    modifies str
    ensures var out := Bounded(debug).Error();
      Cut(k, out, size, false) && str[..] == Written(old(str[..]), pos, out[..k])
  {
    k := 0;
    if debug {
      k := Put(str, pos, size, "ERROR");
    } else {
      NothingWritten(str[..], pos);
    }
  }

  /** The text of %s, and the spaces behind it. */
  method PutText(str: array<char>, pos: nat, size: nat, text: string, count: nat) returns (k: nat)
    requires pos + size <= str.Length && size > 0
    modifies str
    ensures var out := Padded(text, count);
      Cut(k, out, size, false) && str[..] == Written(old(str[..]), pos, out[..k])
  {
    k := PutAndSpaces(str, pos, size, text, Excess(count, |text|));
  }

  /** The blanks for "*s". */
  method PutBlanks(str: array<char>, pos: nat, size: nat, n: nat, count: nat, run: nat, debug: bool) returns (k: nat)
    requires pos + size <= str.Length && size > 0
    modifies str
    ensures var out := BlanksFor(n, count, Bounded(debug), run);
      Cut(k, out, size, false) && str[..] == Written(old(str[..]), pos, out[..k])
  {
    k := PutAndSpaces(str, pos, size, Repeat(' ', n), Excess(count, run));
  }

  /** A text with spaces behind it, as far as there is room. */
  method PutAndSpaces(str: array<char>, pos: nat, size: nat, text: string, spaces: nat) returns (k: nat)
    requires pos + size <= str.Length && size > 0
    modifies str
    ensures var out := text + Repeat(' ', spaces);
      Cut(k, out, size, false) && str[..] == Written(old(str[..]), pos, out[..k])
  {
    hide *;
    ghost var before := str[..];
    k := Put(str, pos, size, text);
    if size - k != 0 && spaces > 0 {
      var m := Put(str, pos + k, size - k, Repeat(' ', spaces));
      SpacesPut(before, pos, text, spaces, size, k, m, str[..]);
      k := k + m;
    } else {
      NoSpacesPut(text, spaces, size, k);
    }
  }

  lemma SpacesPut(before: string, pos: nat, text: string, spaces: nat, size: nat, k: nat, m: nat, now: string)
    requires pos + size <= |before| && k == |text| < size
    requires m == (if spaces < size - k then spaces else size - k)
    requires now == Written(Written(before, pos, text[..k]), pos + k, Repeat(' ', spaces)[..m])
    ensures var out := text + Repeat(' ', spaces);
      Cut(k + m, out, size, false) && now == Written(before, pos, out[..k + m])
  {
    hide Written;
    var tail := Repeat(' ', spaces);
    assert text[..k] == text;
    WrittenTwice(before, pos, text, tail[..m]);
    assert (text + tail)[..k + m] == text + tail[..m];
  }

  lemma NoSpacesPut(text: string, spaces: nat, size: nat, k: nat)
    requires k == (if |text| < size then |text| else size) && (k == size || spaces == 0)
    ensures var out := text + Repeat(' ', spaces);
      Cut(k, out, size, false) && out[..k] == text[..k]
  {
  }

  /** A destination: n characters at position `at` of a memory with the given contents. */
  datatype Room = Room(before: string, at: nat, n: nat)
  {
    predicate Inside() { at + n <= |before| }
  }

  /** The memory when the destination holds text, with zeros behind it. */
  function Image(room: Room, text: string): string
    requires room.Inside() && |text| <= room.n
  {
    room.before[..room.at] + text + Repeat('\0', room.n - |text|) + room.before[room.at + room.n..]
  }

  lemma ImageWritten(room: Room, sofar: string, t: string)
    requires room.Inside() && |sofar| + |t| <= room.n
    ensures Written(Image(room, sofar), room.at + |sofar|, t) == Image(room, sofar + t)
  {
    var front, x, z := room.before[..room.at], Repeat('\0', room.n - |sofar|), room.before[room.at + room.n..];
    assert x[|t|..] == Repeat('\0', room.n - |sofar| - |t|);
    var image := front + sofar + x + z;
    assert image[..room.at + |sofar|] == front + sofar;
    assert image[room.at + |sofar| + |t|..] == x[|t|..] + z;
  }

  /** How far a text gets in a buffer of n characters, the terminator included. */
  predicate GetsTo(k: nat, text: string, n: nat, pairs: bool) {
    k <= |text| && k < n && (k == |text| || (|text| >= n && k >= n - if pairs then 2 else 1))
  }

  /** When a piece fills the buffer, everything that is written is as much as fits. */
  lemma BufferFull(out: string, sofar: string, piece: string, rest: string, k: nat, size: nat, pairs: bool)
    requires out == sofar + (piece + rest) && Cut(k, piece, size, pairs) && (k == size || k < |piece|)
    ensures GetsTo(|sofar| + k, out, |sofar| + size + 1, pairs) && out[..|sofar| + k] == sofar + piece[..k]
  {
  }

  /** The destination holds the beginning of out, as much as goes into it. */
  ghost predicate Holds(now: string, room: Room, out: string, k: nat, pairs: bool) {
    room.Inside() && GetsTo(k, out, room.n, pairs) && now == Image(room, out[..k])
  }

  /** In full: as many characters as fit with a terminator, one less at most if pairs of nibbles are written, then
      zeros; and the memory around the destination is as it was. */
  lemma HeldCharacters(now: string, room: Room, out: string, k: nat, pairs: bool)
    requires Holds(now, room, out, k, pairs)
    ensures |now| == |room.before| && room.at + room.n <= |now| && k <= |out| && k < room.n
    ensures if |out| < room.n then k == |out| else k == room.n - 1 || (pairs && k == room.n - 2)
    ensures forall i :: 0 <= i < |now| ==>
              now[i] ==
                if i < room.at || room.at + room.n <= i then room.before[i]
                else if i < room.at + k then out[i - room.at] else '\0'
  {
    var front, tail := room.before[..room.at], room.before[room.at + room.n..];
    assert now == front + out[..k] + Repeat('\0', room.n - k) + tail;
  }

  /** Without %H and %h there are no pairs. */
  lemma {:induction false} NoPairsWithoutHex(fmt: string, i: nat)
    requires i <= |fmt| && 'H' !in fmt && 'h' !in fmt
    ensures !UsesPairs(fmt, i)
    decreases |fmt| - i
  {
    if i < |fmt| && fmt[i] != '\0' {
      if fmt[i] != '%' {
        NoPairsWithoutHex(fmt, i + 1);
      } else {
        var s := ReadSpec(fmt, i + 1, 0, ' ');
        if s.Some? {
          LetterInFormat(fmt, i + 1, 0, ' ');
          NoPairsWithoutHex(fmt, s.value.next);
        }
      }
    }
  }

  lemma {:induction false} LetterInFormat(fmt: string, i: nat, count: uint32, fill: char)
    requires i <= |fmt| && ReadSpec(fmt, i, count, fill).Some?
    ensures ReadSpec(fmt, i, count, fill).value.conv in fmt
    decreases |fmt| - i
  {
    ReadSpecStep(fmt, i, count, fill);
    hide ReadSpec;
    if IsDigit(fmt[i]) {
      LetterInFormat(fmt, i + 1, AddDigit(count, fmt[i]), AddFill(count, fill, fmt[i]));
    } else if fmt[i] == '-' {
      LetterInFormat(fmt, i + 1, count, fill);
    }
  }

  /** The destination holds what has been written so far, and the rest of the stream is to follow. */
  ghost predicate OnTheWay(now: string, room: Room, stream: Option<string>, sofar: string, rest: Option<string>) {
    && room.Inside() && |sofar| < room.n && now == Image(room, sofar)
    && rest.Some? && stream == Some(sofar + rest.value)
  }

  lemma NextPiece(room: Room, stream: Option<string>, sofar: string, piece: string, rest: Option<string>,
                  was: string, now: string, size: nat, k: nat, pairs: bool)
    requires OnTheWay(was, room, stream, sofar, Prefixed(piece, rest)) && |sofar| + size == room.n - 1
    requires Cut(k, piece, size, pairs) && now == Written(was, room.at + |sofar|, piece[..k])
    ensures if k == size || k < |piece| then stream.Some? && Holds(now, room, stream.value, |sofar| + k, pairs)
            else k == |piece| && OnTheWay(now, room, stream, sofar + piece, rest)
  {
    hide Image, Written;
    ImageWritten(room, sofar, piece[..k]);
    if k == size || k < |piece| {
      BufferFull(stream.value, sofar, piece, rest.value, k, size, pairs);
    } else {
      assert piece[..k] == piece;
      assert sofar + (piece + rest.value) == (sofar + piece) + rest.value;
    }
  }

  lemma NothingYet(room: Room, stream: Option<string>, now: string, pairs: bool)
    requires room.Inside() && 0 < room.n && stream.Some? && now == Image(room, "")
    ensures OnTheWay(now, room, stream, "", stream) && (room.n == 1 ==> Holds(now, room, stream.value, 0, pairs))
  {
    assert "" + stream.value == stream.value;
    assert stream.value[..0] == "";
  }

  lemma Finished(room: Room, stream: Option<string>, sofar: string, now: string, pairs: bool)
    requires OnTheWay(now, room, stream, sofar, Some(""))
    ensures stream.Some? && Holds(now, room, stream.value, |sofar|, pairs)
  {
    assert sofar + "" == sofar && sofar[..|sofar|] == sofar;
  }

  lemma CutMayUsePairs(k: nat, text: string, size: nat, pairs: bool, more: bool)
    requires Cut(k, text, size, pairs) && (pairs ==> more)
    ensures Cut(k, text, size, more)
  {
  }

  lemma UsesPairsStep(fmt: string, i: nat)
    requires i < |fmt| && fmt[i] == '%' && ReadSpec(fmt, i + 1, 0, ' ').Some?
    ensures var s := ReadSpec(fmt, i + 1, 0, ' ').value;
      UsesPairs(fmt, i) <==> IsHex(s.conv) || UsesPairs(fmt, s.next)
  {
  }

  lemma SomeIsOnTheWay(now: string, room: Room, stream: Option<string>, sofar: string, rest: Option<string>)
    requires OnTheWay(now, room, stream, sofar, rest)
    ensures rest.Some?
  {
  }

  /** snprintf, to position `at` of a memory: the destination holds the beginning of what the format stands for,
      followed by zeros; all of it if there is room, and otherwise as much as there is room for, except that the
      two characters of a byte in hexadecimal are not separated. Nothing else is written. */
  method Snprintf(str: array?<char>, at: nat, strSize: nat, fmt: string, args: seq<Arg>, debug: bool)
    returns (ret: int, ghost k: nat)
    requires str != null ==> at + strSize <= str.Length
    requires Stream(fmt, 0, args, 0, Bounded(debug), 0).Some?
    modifies str
    ensures ret == 0
    ensures str != null && strSize == 0 ==> str[..] == old(str[..])
    ensures str != null && strSize > 0 ==>
              Holds(str[..], Room(old(str[..]), at, strSize), Stream(fmt, 0, args, 0, Bounded(debug), 0).value, k,
                    UsesPairs(fmt, 0))
  {
    hide Stream, Image, Holds, OnTheWay, GetsTo, UsesPairs;
    ret, k := 0, 0;
    if str == null || strSize < 1 {
      return;
    }
    ghost var room, stream := Room(str[..], at, strSize), Stream(fmt, 0, args, 0, Bounded(debug), 0);
    Clear(str, at, strSize);
    NothingYet(room, stream, str[..], UsesPairs(fmt, 0));
    if strSize - 1 < 1 {
      return;
    }
    k := Interpret(str, fmt, args, debug, room, stream, at, strSize - 1);
  }

  /** The loop of snprintf over the format. */
  method Interpret(str: array<char>, fmt: string, args: seq<Arg>, debug: bool, ghost room: Room,
                   ghost stream: Option<string>, pos0: nat, size0: nat)
    returns (ghost k: nat)
    requires room.Inside() && |room.before| == str.Length && pos0 == room.at && 0 < size0 == room.n - 1
    requires stream == Stream(fmt, 0, args, 0, Bounded(debug), 0) && OnTheWay(str[..], room, stream, "", stream)
    modifies str
    ensures stream.Some? && Holds(str[..], room, stream.value, k, UsesPairs(fmt, 0))
  {
    hide Stream, Image, Holds, OnTheWay, GetsTo, Written, Cut, Output, ReadSpec, Prefixed, UsesPairs, IsHex;
    var pos, size, i, a := pos0, size0, 0, 0;
    ghost var mode, sofar, pairs := Bounded(debug), "", UsesPairs(fmt, 0);
    SomeIsOnTheWay(str[..], room, stream, sofar, stream);
    StreamInside(fmt, 0, args, 0, mode, 0);
    while fmt[i] != '\0'
      invariant 0 <= i < |fmt| && 0 <= a && 0 < size && pos == room.at + |sofar| && |sofar| + size == room.n - 1
      invariant OnTheWay(str[..], room, stream, sofar, Stream(fmt, i, args, a, mode, 0))
      invariant UsesPairs(fmt, i) ==> pairs
      decreases |fmt| - i
    {
      SomeIsOnTheWay(str[..], room, stream, sofar, Stream(fmt, i, args, a, mode, 0));
      var j := ScanLiteral(fmt, i, args, a, mode);
      var run := j - i;
      ghost var was, rest := str[..], Stream(fmt, j, args, a, mode, run);
      var done := Put(str, pos, size, fmt[i..j]);
      CutMayUsePairs(done, fmt[i..j], size, false, pairs);
      NextPiece(room, stream, sofar, fmt[i..j], rest, was, str[..], size, done, pairs);
      pos, size := pos + done, size - done;
      if size == 0 {
        k := |sofar| + done;
        return;
      }
      sofar, i := sofar + fmt[i..j], j;
      if fmt[i] == '\0' {
        StreamEnd(fmt, i, args, a, mode, run);
        Finished(room, stream, sofar, str[..], pairs);
        k := |sofar|;
        return;
      }
      SomeIsOnTheWay(str[..], room, stream, sofar, rest);
      StreamDirective(fmt, i, args, a, mode, run);
      var s := ScanSpec(fmt, i + 1);
      ghost var (out, next) := Output(s, args, a, mode, run).value;
      was, rest := str[..], Stream(fmt, s.next, args, next, mode, 0);
      var full;
      done, full, a := PutDirective(str, pos, size, s, args, a, debug, run);
      UsesPairsStep(fmt, i);
      CutMayUsePairs(done, out, size, IsHex(s.conv), pairs);
      NextPiece(room, stream, sofar, out, rest, was, str[..], size, done, pairs);
      pos, size, i := pos + done, size - done, s.next;
      if full {
        k := |sofar| + done;
        return;
      }
      sofar := sofar + out;
      SomeIsOnTheWay(str[..], room, stream, sofar, rest);
      StreamInside(fmt, i, args, a, mode, 0);
    }
    StreamEnd(fmt, i, args, a, mode, 0);
    Finished(room, stream, sofar, str[..], pairs);
    k := |sofar|;
  }

  /** memset with zeros */
  method Clear(str: array<char>, at: nat, n: nat)
    requires at + n <= str.Length
    modifies str
    ensures str[..] == Image(Room(old(str[..]), at, n), "")
  {
    forall i | 0 <= i < n { str[at + i] := '\0'; }
  }

  // ------------------------------------------------------------------ the two interpreters together

  predicate Known(c: char) { c == 'c' || c == '%' || IsNumber(c) || TakesLength(c) }

  /** Both interpreters write the same for a directive: it does not ask for blanks by "*s", and if it is an error, both
      of them report it. */
  predicate Alike(s: Spec, args: seq<Arg>, a: nat, debug: bool) {
    if s.conv == 's' && s.extent.Blanks? then debug && HasBlanksArgs(args, a) && args[a + 1].mem[0] != '\0'
    else debug || Known(s.conv)
  }

  /** This is so for every directive of the format, from i on. */
  predicate AllAlike(fmt: string, i: nat, args: seq<Arg>, a: nat, debug: bool)
    requires i <= |fmt|
    decreases |fmt| - i
  {
    if i == |fmt| || fmt[i] == '\0' then true
    else if fmt[i] != '%' then AllAlike(fmt, i + 1, args, a, debug)
    else
      var s := ReadSpec(fmt, i + 1, 0, ' ');
      s.Some? && Alike(s.value, args, a, debug) &&
      AllAlike(fmt, s.value.next, args, a + Taken(s.value), debug)
  }

  /** How many arguments a directive takes. */
  function Taken(s: Spec): nat {
    if s.conv == 's' && s.extent.Blanks? then 2
    else if TakesLength(s.conv) then if s.extent.Given? then 2 else 1
    else if s.conv == 'c' || IsNumber(s.conv) then 1
    else 0
  }

  /** McuUsbPrintf and Snprintf write the same stream exactly if every directive is alike for both; otherwise that of
      McuUsbPrintf is longer. */
  lemma {:induction false} SameStream(fmt: string, i: nat, args: seq<Arg>, a: nat, debug: bool, run: nat)
    requires i <= |fmt| && Stream(fmt, i, args, a, Streaming, run).Some?
    ensures var x, y := Stream(fmt, i, args, a, Streaming, run), Stream(fmt, i, args, a, Bounded(debug), run);
      && y.Some? && |x.value| >= |y.value| && (x == y <==> AllAlike(fmt, i, args, a, debug))
      && (|x.value| == |y.value| <==> AllAlike(fmt, i, args, a, debug))
    decreases |fmt| - i
  {
    var mode := Bounded(debug);
    StreamInside(fmt, i, args, a, Streaming, run);
    if fmt[i] != '\0' {
      if fmt[i] != '%' {
        StreamLiteral(fmt, i, args, a, Streaming, run);
        StreamLiteral(fmt, i, args, a, mode, run);
        SameStream(fmt, i + 1, args, a, debug, run + 1);
        var x, y := Stream(fmt, i + 1, args, a, Streaming, run + 1), Stream(fmt, i + 1, args, a, mode, run + 1);
        hide Stream, ReadSpec;
      } else {
        var s := ReadSpec(fmt, i + 1, 0, ' ').value;
        StreamDirective(fmt, i, args, a, Streaming, run);
        var (out, next) := Output(s, args, a, Streaming, run).value;
        SameOutput(s, args, a, debug, run);
        SameStream(fmt, s.next, args, next, debug, 0);
        var x, y := Stream(fmt, s.next, args, next, Streaming, 0).value, Stream(fmt, s.next, args, next, mode, 0).value;
        var out' := Output(s, args, a, mode, run).value.0;
        assert Stream(fmt, i, args, a, mode, run) == Some(out' + y);
        assert Stream(fmt, i, args, a, Streaming, run) == Some(out + x);
        hide Stream, ReadSpec, Output, Alike, Taken;
      }
    }
  }

  lemma SameOutput(s: Spec, args: seq<Arg>, a: nat, debug: bool, run: nat)
    requires Output(s, args, a, Streaming, run).Some?
    ensures var x, y := Output(s, args, a, Streaming, run), Output(s, args, a, Bounded(debug), run);
      && y.Some? && y.value.1 == x.value.1 == a + Taken(s)
      && (if Alike(s, args, a, debug) then x == y else |x.value.0| > |y.value.0|)
  {
    hide Rendering, NumberField, Hex, Padded;
  }

  /** So for such formats what snprintf leaves in its destination is the beginning of what mcu_usb_printf sends, all of
      it exactly if it is shorter than the destination, with zeros behind it. */
  lemma BoundedIsPrefix(fmt: string, args: seq<Arg>, debug: bool, now: string, room: Room, k: nat)
    requires Stream(fmt, 0, args, 0, Streaming, 0).Some? && AllAlike(fmt, 0, args, 0, debug)
    requires Stream(fmt, 0, args, 0, Bounded(debug), 0).Some?
    requires Holds(now, room, Stream(fmt, 0, args, 0, Bounded(debug), 0).value, k, UsesPairs(fmt, 0))
    ensures var sent := Stream(fmt, 0, args, 0, Streaming, 0).value;
      && k <= |sent| && room.at + room.n <= |now| == |room.before|
      && now[room.at..room.at + k] == sent[..k] && (k == |sent| <==> |sent| < room.n)
      && (forall i :: room.at + k <= i < room.at + room.n ==> now[i] == '\0')
      && now[..room.at] == room.before[..room.at] && now[room.at + room.n..] == room.before[room.at + room.n..]
  {
    hide *;
    SameStream(fmt, 0, args, 0, debug, 0);
    HeldPrefix(now, room, Stream(fmt, 0, args, 0, Streaming, 0).value, k, UsesPairs(fmt, 0));
  }

  lemma HeldPrefix(now: string, room: Room, out: string, k: nat, pairs: bool)
    requires Holds(now, room, out, k, pairs)
    ensures k <= |out| && room.at + room.n <= |now| == |room.before| && k < room.n
    ensures now[room.at..room.at + k] == out[..k] && (k == |out| <==> |out| < room.n)
    ensures forall i :: room.at + k <= i < room.at + room.n ==> now[i] == '\0'
    ensures now[..room.at] == room.before[..room.at] && now[room.at + room.n..] == room.before[room.at + room.n..]
  {
    hide *;
    HeldCharacters(now, room, out, k, pairs);
  }

  /** "*s" with an empty text: a blank more is sent than asked for, and written when the text goes to memory. */
  lemma BlanksDiffer(n: uint32)
    ensures var args := [Num(n), Str("\0")];
      && Stream("%*s\0", 0, args, 0, Streaming, 0) == Some(Repeat(' ', n + 1))
      && Stream("%*s\0", 0, args, 0, Bounded(true), 0) == Some(Repeat(' ', n))
  {
    var args := [Num(n), Str("\0")];
    var fmt := "%*s\0";
    assert ReadSpec(fmt, 1, 0, ' ') == Some(Spec('s', 0, ' ', Blanks, 3));
    assert Stream(fmt, 3, args, 2, Streaming, 0) == Some("") && Stream(fmt, 3, args, 2, Bounded(true), 0) == Some("");
    assert Repeat(' ', n + 1) + Repeat(' ', 0) + "" == Repeat(' ', n + 1);
    assert Repeat(' ', n) + Repeat(' ', 0) + "" == Repeat(' ', n);
  }

  /** With a width, the characters in front of the directive are taken for the text to be filled up: two of the five
      that are asked for are missing. */
  lemma WidthIsReduced(n: uint32)
    ensures Stream("ab%5*s\0", 0, [Num(n), Str("\0")], 0, Bounded(false), 0) == Some("ab" + Repeat(' ', n + 3))
  {
    var args, mode, fmt := [Num(n), Str("\0")], Bounded(false), "ab%5*s\0";
    assert AddDigit(0, '5') == 5;
    assert ReadSpec(fmt, 4, 5, ' ') == Some(Spec('s', 5, ' ', Blanks, 6));
    assert ReadSpec(fmt, 3, 0, ' ') == Some(Spec('s', 5, ' ', Blanks, 6));
    var blanks := Repeat(' ', n) + Repeat(' ', 3);
    assert blanks == Repeat(' ', n + 3);
    assert Stream(fmt, 6, args, 2, mode, 0) == Some("");
    assert Stream(fmt, 2, args, 0, mode, 2) == Some(blanks) by { assert blanks + "" == blanks; }
    assert Stream(fmt, 1, args, 0, mode, 1) == Some("b" + blanks);
    assert "a" + ("b" + blanks) == "ab" + blanks;
  }

  /** Bytes in hexadecimal can be read back. */
  lemma {:induction false} HexReadsBack(bytes: string, cap: bool, i: nat)
    requires i < |bytes| && bytes[i] as int < 256
    ensures var h := Hex(bytes, cap);
      16 * DigitValue(h[2 * i]) + DigitValue(h[2 * i + 1]) == bytes[i] as int
    decreases |bytes|
  {
    var last := |bytes| - 1;
    if i < last {
      HexReadsBack(bytes[..last], cap, i);
    } else {
      hide DigitChar, DigitValue;
      DigitReadsBack((bytes[i] as int / 16) % 16, cap);
      DigitReadsBack(bytes[i] as int % 16, cap);
    }
  }
}
