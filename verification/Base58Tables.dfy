/** The base58 alphabet and the decoder's table (lib_standard_app/base58.c). */
module Base58Tables {
  import opened CTypes

  /** The digit of each ASCII character, sixteen character codes to a row; 255 outside the alphabet. */
  function TableRow(r: nat): seq<byte>
    requires r < 8
  {
    match r
    case 0 => [255, 255, 255, 255, 255, 255, 255, 255, 255, 255, 255, 255, 255, 255, 255, 255]
    case 1 => [255, 255, 255, 255, 255, 255, 255, 255, 255, 255, 255, 255, 255, 255, 255, 255]
    case 2 => [255, 255, 255, 255, 255, 255, 255, 255, 255, 255, 255, 255, 255, 255, 255, 255]
    case 3 => [255, 0, 1, 2, 3, 4, 5, 6, 7, 8, 255, 255, 255, 255, 255, 255]
    case 4 => [255, 9, 10, 11, 12, 13, 14, 15, 16, 255, 17, 18, 19, 20, 21, 255]
    case 5 => [22, 23, 24, 25, 26, 27, 28, 29, 30, 31, 32, 255, 255, 255, 255, 255]
    case 6 => [255, 33, 34, 35, 36, 37, 38, 39, 40, 41, 42, 43, 255, 44, 45, 46]
    case 7 => [47, 48, 49, 50, 51, 52, 53, 54, 55, 56, 57, 255, 255, 255, 255, 255]
  }

  /** The alphabet, fifteen digits to a row. */
  function AlphabetRow(r: nat): string
    requires r < 4
  {
    match r
    case 0 => "123456789ABCDEF"
    case 1 => "GHJKLMNPQRSTUVW"
    case 2 => "XYZabcdefghijkm"
    case 3 => "nopqrstuvwxyz"
  }

  /** The table in closed form: the six runs of consecutive characters that the alphabet is made of. */
  function DigitInRuns(c: nat): byte {
    if 49 <= c < 58 then c - 49
    else if 65 <= c < 73 then c - 56
    else if 74 <= c < 79 then c - 57
    else if 80 <= c < 91 then c - 58
    else if 97 <= c < 108 then c - 64
    else if 109 <= c < 123 then c - 65
    else 255
  }

  lemma LowTableRows(r: nat, k: nat)
    requires r < 4 && k < 16
    ensures |TableRow(r)| == 16 && TableRow(r)[k] == DigitInRuns(16 * r + k)
  {
    if r == 0 {} else if r == 1 {} else if r == 2 {} else {}
  }

  lemma MiddleTableRows(r: nat, k: nat)
    requires 4 <= r < 6 && k < 16
    ensures |TableRow(r)| == 16 && TableRow(r)[k] == DigitInRuns(16 * r + k)
  {
    if r == 4 {} else {}
  }

  lemma HighTableRows(r: nat, k: nat)
    requires 6 <= r < 8 && k < 16
    ensures |TableRow(r)| == 16 && TableRow(r)[k] == DigitInRuns(16 * r + k)
  {
    if r == 6 {} else {}
  }

  lemma TableRows(r: nat, k: nat)
    requires r < 8 && k < 16
    ensures |TableRow(r)| == 16 && TableRow(r)[k] == DigitInRuns(16 * r + k)
  {
    hide *;
    if r < 4 { LowTableRows(r, k); } else if r < 6 { MiddleTableRows(r, k); } else { HighTableRows(r, k); }
  }

  lemma LowAlphabetRows(r: nat, k: nat)
    requires r < 2 && k < 15
    ensures k < |AlphabetRow(r)| && DigitInRuns(AlphabetRow(r)[k] as int) == 15 * r + k
  {
    if r == 0 {} else {}
  }

  lemma HighAlphabetRows(r: nat, k: nat)
    requires 2 <= r < 4 && k < 15 && 15 * r + k < 58
    ensures k < |AlphabetRow(r)| && DigitInRuns(AlphabetRow(r)[k] as int) == 15 * r + k
  {
    if r == 2 {} else {}
  }

  lemma AlphabetRows(r: nat, k: nat)
    requires r < 4 && k < 15 && 15 * r + k < 58
    ensures k < |AlphabetRow(r)| && DigitInRuns(AlphabetRow(r)[k] as int) == 15 * r + k
  {
    hide *;
    if r < 2 { LowAlphabetRows(r, k); } else { HighAlphabetRows(r, k); }
  }

  /** The decoder's reading of one character: a digit, or 255. */
  function DigitOf(c: char): (d: byte)
    ensures d == DigitInRuns(c as int)
  {
    if c as int >= 128 then 255
    else
      var r, k := c as int / 16, c as int % 16;
      TableRows(r, k);
      TableRow(r)[k]
  }

  function CharOf(d: nat): (c: char)
    requires d < 58
    ensures DigitInRuns(c as int) == d
  {
    AlphabetRows(d / 15, d % 15);
    AlphabetRow(d / 15)[d % 15]
  }

  /** Reading undoes writing. */
  lemma ReadWritten(d: nat)
    requires d < 58
    ensures DigitOf(CharOf(d)) == d
  {
  }

  lemma RunsInjective(a: nat, b: nat)
    requires DigitInRuns(a) == DigitInRuns(b) != 255
    ensures a == b
  {
  }

  /** Writing undoes reading. */
  lemma WriteRead(c: char)
    requires DigitOf(c) != 255
    ensures DigitOf(c) < 58 && CharOf(DigitOf(c)) == c
  {
    RunsInjective(c as int, CharOf(DigitInRuns(c as int)) as int);
  }

  /** The alphabet: the digits and the letters, but for the ones that look alike. */
  lemma AlphabetIs(c: char)
    ensures DigitOf(c) != 255 <==>
              ('0' <= c <= '9' || 'A' <= c <= 'Z' || 'a' <= c <= 'z') && c != '0' && c != 'O' && c != 'I' && c != 'l'
    ensures DigitOf(c) != 255 <==> DigitOf(c) < 58
  {
  }

  /** The 58 characters are in the order of their codes. */
  lemma AlphabetOrder(c: char, d: char)
    requires DigitOf(c) != 255 && DigitOf(d) != 255
    ensures DigitOf(c) < DigitOf(d) <==> c < d
  {
  }

  lemma CharOrder(x: nat, y: nat)
    requires x < y < 58
    ensures CharOf(x) < CharOf(y)
  {
    ReadWritten(x);
    ReadWritten(y);
    AlphabetOrder(CharOf(x), CharOf(y));
  }
}
