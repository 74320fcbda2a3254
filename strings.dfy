/** The few Python string operations the modelled code uses: `s * n`,
    `sep.join(parts)`, and character counting to state what a built string
    holds. */
module Strings {

  /** How many times `ch` occurs in `s`. */
  function Count(s: string, ch: char): (n: nat)
    ensures n <= |s|
  {
    if s == [] then 0 else Count(s[..|s| - 1], ch) + (if s[|s| - 1] == ch then 1 else 0)
  }

  /** A character is counted zero times exactly when it does not occur. */
  lemma {:induction false} CountZero(s: string, ch: char)
    ensures Count(s, ch) == 0 <==> ch !in s
  {
    if s != [] {
      CountZero(s[..|s| - 1], ch);
      assert s == s[..|s| - 1] + [s[|s| - 1]];
    }
  }

  /** A one-character string holds its character once and no other. */
  lemma CountSingle(ch: char, d: char)
    ensures Count([ch], d) == if ch == d then 1 else 0
  {
    assert [ch][..0] == [];
  }

  lemma {:induction false} CountConcat(a: string, b: string, ch: char)
    ensures Count(a + b, ch) == Count(a, ch) + Count(b, ch)
  {
    if b != [] {
      assert (a + b)[..|a + b| - 1] == a + b[..|b| - 1];
      CountConcat(a, b[..|b| - 1], ch);
    } else {
      assert a + b == a;
    }
  }

  /** Python's `s * n`: `n` copies of `s`, and the empty string when `n <= 0`. */
  function Repeat(s: string, n: int): string
    decreases if n < 0 then 0 else n
  {
    if n <= 0 then "" else Repeat(s, n - 1) + s
  }

  lemma {:induction false} RepeatCount(s: string, n: int, ch: char)
    ensures Count(Repeat(s, n), ch) == if n <= 0 then 0 else Count(s, ch) * n
    decreases if n < 0 then 0 else n
  {
    if n > 0 {
      RepeatCount(s, n - 1, ch);
      CountConcat(Repeat(s, n - 1), s, ch);
      MulStep(Count(s, ch), n);
    }
  }

  lemma MulStep(a: int, n: int)
    ensures a * (n - 1) + a == a * n && (n - 1) * a + a == n * a
  {
  }

  /** Python's `sep.join(parts)`. */
  function Join(sep: string, parts: seq<string>): string
  {
    if |parts| == 0 then ""
    else if |parts| == 1 then parts[0]
    else Join(sep, parts[..|parts| - 1]) + sep + parts[|parts| - 1]
  }

  /** The total number of `ch` in all of `parts`. */
  function JoinedCount(parts: seq<string>, ch: char): nat
  {
    if parts == [] then 0 else JoinedCount(parts[..|parts| - 1], ch) + Count(parts[|parts| - 1], ch)
  }

  /** A join holds the characters of its parts and one separator between
      each two neighbours. */
  lemma {:induction false} JoinCount(sep: string, parts: seq<string>, ch: char)
    ensures Count(Join(sep, parts), ch) ==
            JoinedCount(parts, ch) + (if parts == [] then 0 else (|parts| - 1) * Count(sep, ch))
  {
    if |parts| == 1 {
      assert parts[..0] == [];
    } else if |parts| > 1 {
      var init := parts[..|parts| - 1];
      JoinCount(sep, init, ch);
      CountConcat(Join(sep, init), sep, ch);
      CountConcat(Join(sep, init) + sep, parts[|parts| - 1], ch);
      MulStep(Count(sep, ch), |parts| - 1);
    }
  }

  /** Parts that each hold `ch` the same number of times `v` hold it `v`
      times per part in all. */
  lemma {:induction false} JoinedCountEach(parts: seq<string>, ch: char, v: nat)
    requires forall i :: 0 <= i < |parts| ==> Count(parts[i], ch) == v
    ensures JoinedCount(parts, ch) == |parts| * v
  {
    if parts != [] {
      JoinedCountEach(parts[..|parts| - 1], ch, v);
      MulStep(v, |parts|);
    }
  }

  predicate EndsWith(s: string, suffix: string) {
    |suffix| <= |s| && s[|s| - |suffix|..] == suffix
  }
}
