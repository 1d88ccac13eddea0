/** Strings in memory, ended by a zero character. */
module CStrings {
  /** strlen */
  function Length(mem: string): (n: nat)
    requires '\0' in mem
    ensures n < |mem| && mem[n] == '\0' && forall i :: 0 <= i < n ==> mem[i] != '\0'
  {
    if mem[0] == '\0' then 0 else 1 + Length(mem[1..])
  }

  /** The string that starts at the beginning of the memory. */
  function CString(mem: string): string
    requires '\0' in mem
  {
    mem[..Length(mem)]
  }

  /** A string is ended by the first zero behind it. */
  lemma CStringIs(mem: string, s: string)
    requires |s| < |mem| && mem[..|s|] == s && mem[|s|] == '\0' && '\0' !in s
    ensures CString(mem) == s
  {
    assert forall i :: 0 <= i < |s| ==> mem[i] == mem[..|s|][i] == s[i] && s[i] in s;
  }

  /** strlen, for a string at position `at` of a memory. */
  method StrLen(mem: array<char>, at: nat) returns (n: nat)
    requires at <= mem.Length && '\0' in mem[at..]
    ensures n == Length(mem[at..])
  {
    ghost var s := mem[at..];
    n := 0;
    while mem[at + n] != '\0'
      invariant n <= Length(s) && s == mem[at..]
      decreases |s| - n
    {
      assert s[n] == mem[at + n];
      n := n + 1;
    }
    assert s[n] == mem[at + n];
  }

  /** A memory after text has been written at pos. */
  function Written(before: string, pos: nat, text: string): string
    requires pos + |text| <= |before|
  {
    before[..pos] + text + before[pos + |text|..]
  }

  lemma WrittenAt(before: string, pos: nat, text: string, i: nat)
    requires pos + |text| <= |before| && i < |before|
    ensures |Written(before, pos, text)| == |before|
    ensures Written(before, pos, text)[i] == if pos <= i < pos + |text| then text[i - pos] else before[i]
  {
  }

  lemma WrittenTwice(before: string, pos: nat, s: string, t: string)
    requires pos + |s| + |t| <= |before|
    ensures Written(Written(before, pos, s), pos + |s|, t) == Written(before, pos, s + t)
  {
  }
}
