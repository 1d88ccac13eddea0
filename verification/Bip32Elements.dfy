/** The elements of a derivation path, as texts and as bytes (parse_bip32_path of install_params.py and
    lib_standard_app/bip32.c). */
module Bip32Elements {
  import opened CTypes
  import opened Numerals
  import opened Conversion
  import opened Format
  import opened Bip32
  import P = Printf

  // ------------------------------------------------------------------ bytes and words

  /** A word in memory is a number of four base-256 digits, the most significant one first. */
  lemma WordIs(bs: seq<byte>, off: nat)
    requires off + 4 <= |bs|
    ensures ReadWord(bs, off) as int == Val(bs[off..off + 4], 256)
  {
    FourDigits(bs[off..off + 4]);
  }

  lemma FourDigits(ds: seq<nat>)
    requires |ds| == 4
    ensures Val(ds, 256) == ds[0] * 0x100_0000 + ds[1] * 0x1_0000 + ds[2] * 0x100 + ds[3]
  {
    assert Val([], 256) == 0;
    assert ds[..1][..0] == [] && ds[..2][..1] == ds[..1] && ds[..3][..2] == ds[..2];
    assert Val(ds[..1], 256) == ds[0];
    assert Val(ds[..2], 256) == ds[0] * 256 + ds[1];
    assert Val(ds[..3], 256) == (ds[0] * 256 + ds[1]) * 256 + ds[2];
  }

  /** The bytes of a word are its base-256 digits. */
  lemma PackIs(w: uint32)
    ensures Val(Pack(w), 256) == w as int
  {
    PackReadsBack(w);
    WordIs(Pack(w), 0);
    assert Pack(w)[0..4] == Pack(w);
  }

  // ------------------------------------------------------------------ printed steps

  /** A step is printed in decimal, without its highest bit, and with a quote exactly if that is set. */
  lemma StepTextIs(word: uint32)
    ensures StepText(word) ==
      if word >= 0x8000_0000 then Decimal(word - 0x8000_0000) + "'" else Decimal(word)
  {
    hide Decimal;
    assert Decimal(word % 0x8000_0000) + "" == Decimal(word % 0x8000_0000);
  }

  /** The parts of a text with their separators in between. */
  function Join(es: seq<string>): string
    requires es != []
  {
    if |es| == 1 then es[0] else es[0] + "/" + Join(es[1..])
  }

  /** A path is cut at every slash, and nothing is lost. */
  lemma {:induction false} SplitIs(s: string)
    ensures Join(Split(s)) == s && forall e :: e in Split(s) ==> '/' !in e
  {
    if s == "" {
    } else if s[0] == '/' {
      SplitIs(s[1..]);
      assert ([""] + Split(s[1..]))[1..] == Split(s[1..]);
      assert "" + "/" + s[1..] == s;
    } else {
      SplitIs(s[1..]);
      var es := Split(s[1..]);
      FrontJoined(s[0], es);
      assert [s[0]] + s[1..] == s;
    }
  }

  lemma FrontJoined(c: char, es: seq<string>)
    requires es != []
    ensures Join([[c] + es[0]] + es[1..]) == [c] + Join(es)
  {
    var fs := [[c] + es[0]] + es[1..];
    assert fs[1..] == es[1..];
    if |es| > 1 {
      assert ([c] + es[0]) + "/" + Join(es[1..]) == [c] + (es[0] + "/" + Join(es[1..]));
    }
  }

  /** A printed path is its printed steps with slashes in between. */
  lemma {:induction false} PathTextIs(path: seq<uint32>)
    requires path != []
    ensures PathText(path) == Join(seq(|path|, i requires 0 <= i < |path| => StepText(path[i])))
  {
    hide StepText;
    var steps := seq(|path|, i requires 0 <= i < |path| => StepText(path[i]));
    if |path| > 1 {
      PathTextIs(path[1..]);
      assert steps[1..] == seq(|path| - 1, i requires 0 <= i < |path| - 1 => StepText(path[1..][i]));
      assert StepText(path[0]) + ("/" + Join(steps[1..])) == StepText(path[0]) + "/" + Join(steps[1..]);
    }
  }

  // ------------------------------------------------------------------ numbers

  predicate Blank(c: char) { c in {' ', '\t', '\n', '\U{0B}', '\U{0C}', '\r'} }

  /** Blanks only. */
  predicate AllBlank(s: string) { forall i :: 0 <= i < |s| ==> Blank(s[i]) }

  /** Digits, with at most one underscore between any two. */
  predicate DigitGroups(s: string) {
    && s != "" && s[0] != '_' && s[|s| - 1] != '_'
    && (forall i :: 0 <= i < |s| ==> '0' <= s[i] <= '9' || s[i] == '_')
    && (forall i :: 0 <= i < |s| - 1 ==> !(s[i] == '_' && s[i + 1] == '_'))
  }

  /** The digits alone. */
  function DigitsAlone(s: string): string {
    if s == "" then "" else DigitsAlone(s[..|s| - 1]) + (if s[|s| - 1] == '_' then "" else [s[|s| - 1]])
  }

  lemma BlankIs(c: char)
    ensures Blank(c) <==> IsSpace(c)
  {
  }

  lemma GroupsAre(s: string)
    ensures DigitGroups(s) <==> Grouped(s)
  {
    if Grouped(s) { GroupedHasGroups(s); }
    if DigitGroups(s) { GroupsAreGrouped(s); }
  }

  lemma GroupedHasGroups(s: string)
    requires Grouped(s)
    ensures DigitGroups(s)
  {
    var last := |s| - 1;
    assert DigitOrBetween(s, last);
    forall i | 0 <= i < |s| ensures '0' <= s[i] <= '9' || s[i] == '_' { assert DigitOrBetween(s, i); }
    forall i | 0 <= i < |s| - 1 ensures !(s[i] == '_' && s[i + 1] == '_') { assert DigitOrBetween(s, i); }
  }

  lemma GroupsAreGrouped(s: string)
    requires DigitGroups(s)
    ensures Grouped(s)
  {
    assert '0' <= s[0] <= '9';
    forall i | 0 <= i < |s| ensures DigitOrBetween(s, i) {
      if i < |s| - 1 { assert '0' <= s[i + 1] <= '9' || s[i + 1] == '_'; }
    }
  }

  lemma {:induction false} UngroupedLast(s: string, c: char)
    ensures Ungrouped(s + [c]) == Ungrouped(s) + (if c == '_' then "" else [c])
  {
    if s == "" {
      assert [c][1..] == "";
    } else {
      UngroupedLast(s[1..], c);
      assert (s + [c])[1..] == s[1..] + [c];
    }
  }

  lemma {:induction false} AloneIs(s: string)
    ensures Ungrouped(s) == DigitsAlone(s)
  {
    if s != "" {
      var init, c := s[..|s| - 1], s[|s| - 1];
      AloneIs(init);
      UngroupedLast(init, c);
      assert init + [c] == s;
    }
  }

  lemma {:induction false} StripFront(u: string, t: string)
    requires AllBlank(u)
    ensures Stripped(u + t) == Stripped(t)
    decreases |u|
  {
    if u == "" {
      assert u + t == t;
    } else {
      BlankIs(u[0]);
      assert (u + t)[1..] == u[1..] + t;
      StripFront(u[1..], t);
    }
  }

  lemma {:induction false} StripBack(t: string, w: string)
    requires AllBlank(w) && t != "" && !Blank(t[0]) && !Blank(t[|t| - 1])
    ensures Stripped(t + w) == t
    decreases |w|
  {
    BlankIs(t[0]);
    BlankIs(t[|t| - 1]);
    if w == "" {
      assert t + w == t;
    } else {
      var last := w[|w| - 1];
      BlankIs(last);
      assert (t + w)[..|t + w| - 1] == t + w[..|w| - 1];
      StripBack(t, w[..|w| - 1]);
    }
  }

  /** int reads a number with blanks around it, a sign in front of it, and underscores between its digits. */
  lemma ReadsNumber(u: string, sign: string, d: string, w: string)
    requires AllBlank(u) && AllBlank(w) && DigitGroups(d) && (sign == "" || sign == "+" || sign == "-")
    ensures var n: int := Val(Values(DigitsAlone(d)), 10);
      ParseInt(u + (sign + d) + w) == Some(if sign == "-" then -n else n)
  {
    var t := sign + d;
    GroupsAre(d);
    AloneIs(d);
    NotBlankEnds(sign, d);
    hide *;
    assert u + t + w == u + (t + w);
    StripFront(u, t + w);
    StripBack(t, w);
    assert sign == "" ==> t == d;
    assert sign != "" ==> t[1..] == d && t[0] == sign[0];
    IntOf(u + t + w, t, d);
  }

  lemma NotBlankEnds(sign: string, d: string)
    requires DigitGroups(d) && (sign == "" || sign == "+" || sign == "-")
    ensures var t := sign + d;
      t != "" && !Blank(t[0]) && !Blank(t[|t| - 1]) && d != "" && d[0] != '+' && d[0] != '-'
  {
  }

  lemma IntOf(s: string, t: string, d: string)
    requires Stripped(s) == t != "" && Grouped(d)
    requires d == if t[0] == '+' || t[0] == '-' then t[1..] else t
    ensures var n: int := Val(Values(Ungrouped(d)), 10);
      ParseInt(s) == Some(if t[0] == '-' then -n else n)
  {
    hide Stripped, Grouped, Ungrouped, Val, Values;
  }

  lemma StrippedStep(s: string)
    ensures Stripped(s) == if s != "" && IsSpace(s[0]) then Stripped(s[1..])
                           else if s != "" && IsSpace(s[|s| - 1]) then Stripped(s[..|s| - 1])
                           else s
  {
  }

  lemma {:induction false} StrippedParts(s: string) returns (u: string, w: string)
    ensures AllBlank(u) && AllBlank(w) && s == u + Stripped(s) + w
    decreases |s|
  {
    hide Stripped;
    u, w := "", "";
    StrippedStep(s);
    if s != "" && IsSpace(s[0]) {
      u, w := StrippedParts(s[1..]);
      BlankIs(s[0]);
      u := [s[0]] + u;
    } else if s != "" && IsSpace(s[|s| - 1]) {
      u, w := StrippedParts(s[..|s| - 1]);
      BlankIs(s[|s| - 1]);
      w := w + [s[|s| - 1]];
    }
  }

  /** ... and nothing else. */
  lemma NumberParts(s: string) returns (u: string, sign: string, d: string, w: string)
    requires ParseInt(s).Some?
    ensures AllBlank(u) && AllBlank(w) && DigitGroups(d) && (sign == "" || sign == "+" || sign == "-")
    ensures s == u + (sign + d) + w
  {
    u, w := StrippedParts(s);
    var t := Stripped(s);
    hide Stripped;
    if t != "" && (t[0] == '+' || t[0] == '-') {
      sign, d := [t[0]], t[1..];
    } else {
      sign, d := "", t;
    }
    assert sign + d == t;
    GroupsAre(d);
  }

  // ------------------------------------------------------------------ elements

  /** An element is a number of 32 bits; with a quote behind it, its highest bit is set. */
  lemma ElementIs(e: string)
    ensures (e == "" || e[|e| - 1] != '\'') ==>
              ParseElement(e) ==
                (var m := ParseInt(e);
                 if m.Some? && 0 <= m.value < 0x1_0000_0000 then Some(m.value as uint32) else None)
    ensures ParseElement(e + "'") ==
              (var m := ParseInt(e);
               if m.Some? && 0 <= m.value < 0x1_0000_0000
               then Some((m.value % 0x8000_0000 + 0x8000_0000) as uint32) else None)
  {
    assert (e + "'")[..|e|] == e;
    hide ParseInt;
  }

  /** What a path is parsed to: how many elements there are, in one byte, and their words in order; nothing exactly if
      an element is not such a number or there are more than 255. */
  lemma ParsedIs(s: string, i: nat)
    requires i < |Split(s)|
    ensures ParsePath(s).Some? <==> |Split(s)| <= 255 && forall e :: e in Split(s) ==> ParseElement(e).Some?
    ensures ParsePath(s).Some? ==>
              var bs, word := ParsePath(s).value, ParseElement(Split(s)[i]);
              && |bs| == 1 + 4 * |Split(s)| && bs[0] as int == |Split(s)|
              && word.Some? && Val(bs[1 + 4 * i..5 + 4 * i], 256) == word.value as int
  {
    var es := Split(s);
    AllElements(es);
    hide Split, ParseElement;
    if ParsePath(s).Some? {
      var ws, bs := ParseElements(es).value, ParsePath(s).value;
      assert bs[1..] == PackAll(ws);
      PackedAt(ws, i);
      WordIs(PackAll(ws), 4 * i);
      assert bs[1..][4 * i..4 * i + 4] == bs[1 + 4 * i..5 + 4 * i];
    }
  }

  lemma {:induction false} AllElements(es: seq<string>)
    ensures ParseElements(es).Some? <==> forall e :: e in es ==> ParseElement(e).Some?
    ensures ParseElements(es).Some? ==>
              && |ParseElements(es).value| == |es|
              && forall i :: 0 <= i < |es| ==> ParseElement(es[i]) == Some(ParseElements(es).value[i])
  {
    hide ParseElement;
    if es != [] {
      var init, last := es[..|es| - 1], es[|es| - 1];
      AllElements(init);
      assert es == init + [last];
    }
  }
}
