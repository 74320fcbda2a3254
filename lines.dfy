/** Python's `str.splitlines()` with no arguments, which `load_from_str`
    uses to cut its text into rows. */
module Lines {

  /** The characters `str.splitlines` treats as line boundaries. */
  predicate IsLineBreak(c: char) {
    c == '\n' || c == '\r' || c == '\U{0B}' || c == '\U{0C}' || c == '\U{1C}' || c == '\U{1D}' ||
    c == '\U{1E}' || c == '\U{85}' || c == '\U{2028}' || c == '\U{2029}'
  }

  predicate NoBreaks(s: string) {
    forall i :: 0 <= i < |s| ==> !IsLineBreak(s[i])
  }

  /** The length of the first line of `s`: the index of its first line
      boundary, or `|s|` when there is none. */
  function LineEnd(s: string): (n: nat)
    ensures n <= |s| && NoBreaks(s[..n])
    ensures n < |s| ==> IsLineBreak(s[n])
  {
    if s == [] || IsLineBreak(s[0]) then 0
    else
      var n := 1 + LineEnd(s[1..]);
      assert s[..n] == [s[0]] + s[1..][..n - 1];
      n
  }

  /** `s.splitlines()`: the lines of `s` without their boundaries, where
      "\r\n" is one boundary and a final boundary does not start an empty
      line. */
  function SplitLines(s: string): (lines: seq<string>)
    ensures forall i :: 0 <= i < |lines| ==> NoBreaks(lines[i])
    decreases |s|
  {
    if s == [] then []
    else
      var n := LineEnd(s);
      if n == |s| then [s]
      else
        var skip := if s[n] == '\r' && n + 1 < |s| && s[n + 1] == '\n' then 2 else 1;
        [s[..n]] + SplitLines(s[n + skip..])
  }

  /** The text of `lines`, each line followed by "\n". */
  function JoinLines(lines: seq<string>): string
  {
    if lines == [] then "" else lines[0] + "\n" + JoinLines(lines[1..])
  }

  /** A line ended by "\n" is split off whole. */
  lemma SplitFirst(line: string, rest: string)
    requires NoBreaks(line)
    ensures SplitLines(line + "\n" + rest) == [line] + SplitLines(rest)
  {
    var s := line + "\n" + rest;
    assert s[|line|] == '\n';
    assert s[..|line|] == line;
    assert LineEnd(s) == |line|;
    assert s[|line| + 1..] == rest;
  }

  lemma SplitSingle(last: string)
    requires NoBreaks(last)
    ensures SplitLines(last) == if last == "" then [] else [last]
  {
  }

  /** `splitlines` undoes joining lines with "\n", with or without a last
      unterminated line. */
  lemma {:induction false} SplitJoin(lines: seq<string>, last: string)
    requires forall i :: 0 <= i < |lines| ==> NoBreaks(lines[i])
    requires NoBreaks(last)
    ensures SplitLines(JoinLines(lines) + last) == lines + (if last == "" then [] else [last])
  {
    if lines == [] {
      assert JoinLines(lines) + last == last;
      SplitSingle(last);
    } else {
      var line := lines[0];
      var rest := JoinLines(lines[1..]) + last;
      assert JoinLines(lines) + last == line + "\n" + rest;
      SplitFirst(line, rest);
      SplitJoin(lines[1..], last);
      assert lines == [line] + lines[1..];
    }
  }
}
